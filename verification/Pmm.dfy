/** The physical memory manager (src/kernel/src/vm/pmm.c): 8 KiB slices handed out whole as L1 page
    tables, in eighths as L2 page tables or in halves as pages, with the bookkeeping records
    stored inside the managed memory itself. */
module Pmm {
  import opened Common
  import opened Arith
  import opened SliceLists

  const SLICE_SIZE := 8192
  const INFOS_PER_SLICE := 512
  const INFO_SIZE := 16
  const ADDRESS_SPACE := 0x1_0000_0000

  /** A piece of memory handed out: what for, and its first address. */
  datatype Block = Block(kind: MemoryType, addr: int)

  function Size(kind: MemoryType): int {
    match kind
    case L2PageTable => 1024
    case Page => 4096
    case _ => SLICE_SIZE
  }

  // ----- The `filled` bit vector -----

  /** `1u << i` in eight bits. */
  function Mask(i: nat): bv8
    requires i < 8
  {
    match i case 0 => 1 case 1 => 2 case 2 => 4 case 3 => 8 case 4 => 16 case 5 => 32 case 6 => 64 case 7 => 128
  }

  /** `f |= 1u << i` and `f &= ~(1u << i)` */
  function Or(f: bv8, i: nat): bv8
    requires i < 8
  {
    f | Mask(i)
  }

  function AndNot(f: bv8, i: nat): bv8
    requires i < 8
  {
    f & !Mask(i)
  }

  predicate HasBit(f: bv8, i: nat)
    requires i < 8
  {
    f & Mask(i) != 0
  }

  /** `__builtin_clz` on a non-zero 32-bit word. */
  function CountLeadingZeros(x: bv16): int {
    31 - Log2(x as nat)
  }

  /** `first_free`: isolates the lowest set bit of the complement and reads off its position. */
  function FirstFree(filled: bv16): int {
    var free := !filled;
    32 - CountLeadingZeros(free & -free) - 1
  }

  /** On a byte that is not full, FirstFree is the least clear bit. */
  lemma FirstFreeIsLeastClearBit(f: bv8)
    requires f != 0xff
    ensures 0 <= FirstFree(f as bv16) < 8
    ensures !HasBit(f, FirstFree(f as bv16))
    ensures forall k: nat :: k < FirstFree(f as bv16) ==> HasBit(f, k)
  {
    LowestClearBit(f);
    PositionOf(!(f as bv16) & -!(f as bv16));
  }

  lemma PositionOf(low: bv16)
    ensures (low == 1 ==> Log2(low as nat) == 0) && (low == 2 ==> Log2(low as nat) == 1)
    ensures (low == 4 ==> Log2(low as nat) == 2) && (low == 8 ==> Log2(low as nat) == 3)
    ensures (low == 16 ==> Log2(low as nat) == 4) && (low == 32 ==> Log2(low as nat) == 5)
    ensures (low == 64 ==> Log2(low as nat) == 6) && (low == 128 ==> Log2(low as nat) == 7)
  {
    assert Log2(1) == 0 && Log2(2) == 1 && Log2(4) == 2 && Log2(8) == 3;
    assert Log2(16) == 4 && Log2(32) == 5 && Log2(64) == 6 && Log2(128) == 7;
  }

  /** The isolated bit is one of the eight masks, it is clear in `f`, and every lower bit is set. */
  lemma LowestClearBit(f: bv8)
    requires f != 0xff
    ensures var low := !(f as bv16) & -!(f as bv16);
      || (low == 1 && f & 1 == 0)
      || (low == 2 && f & 3 == 1)
      || (low == 4 && f & 7 == 3)
      || (low == 8 && f & 15 == 7)
      || (low == 16 && f & 31 == 15)
      || (low == 32 && f & 63 == 31)
      || (low == 64 && f & 127 == 63)
      || (low == 128 && f == 127)
  {
  }

  lemma SetBit(f: bv8, i: nat, k: nat)
    requires i < 8 && k < 8
    ensures HasBit(Or(f, i), k) <==> HasBit(f, k) || k == i
  {
  }

  lemma ClearBit(f: bv8, i: nat, k: nat)
    requires i < 8 && k < 8
    ensures HasBit(AndNot(f, i), k) <==> HasBit(f, k) && k != i
  {
  }

  // ----- Where a slice's record lives, and where the lookup says it lives -----

  /** The record of slice `j`: entry `j % 512` of the slice holding the records of bucket `j / 512`. */
  ghost function InfoAddr(start: int, bucket: seq<nat>, j: nat): int
    requires j / INFOS_PER_SLICE < |bucket|
  {
    start + SLICE_SIZE * bucket[j / INFOS_PER_SLICE] + INFO_SIZE * (j % INFOS_PER_SLICE)
  }

  /** The constant-time pointer arithmetic of `pmm_get_sliceinfo_for_slice`. */
  function LookupAddr(start: int, p: int): int
    requires start <= p
  {
    var bucketSize := INFOS_PER_SLICE * SLICE_SIZE;
    var offsetFromStart := p - start;
    var bucketIndex := offsetFromStart / bucketSize;
    var correction := if bucketIndex == 0 then 0 else 1;
    var bucketInfo := start + bucketIndex * bucketSize - correction * SLICE_SIZE;
    var firstAddressInBucket := bucketInfo + correction * SLICE_SIZE;
    var index := (p - firstAddressInBucket) / SLICE_SIZE;
    bucketInfo + index * INFO_SIZE
  }

  /** The slice the lookup expects to hold the records of bucket `k`. */
  function ExpectedBucketSlice(k: nat): nat {
    if k == 0 then 0 else INFOS_PER_SLICE * k - 1
  }

  function SliceOf(start: int, p: int): int {
    (p - start) / SLICE_SIZE
  }

  /** For every pointer into slice `j`, however unaligned, the lookup is right exactly when the records of
      the slice's bucket sit in the expected slice. */
  lemma LookupExactWhen(start: int, bucket: seq<nat>, j: nat, p: int)
    requires j / INFOS_PER_SLICE < |bucket|
    requires start + SLICE_SIZE * j <= p < start + SLICE_SIZE * (j + 1)
    ensures LookupAddr(start, p) == InfoAddr(start, bucket, j)
       <==> bucket[j / INFOS_PER_SLICE] == ExpectedBucketSlice(j / INFOS_PER_SLICE)
  {
    var bucketSize := INFOS_PER_SLICE * SLICE_SIZE;
    var k := j / INFOS_PER_SLICE;
    assert (p - start) / bucketSize == k;
    assert (p - (start + k * bucketSize)) / SLICE_SIZE == j % INFOS_PER_SLICE;
    assert LookupAddr(start, p) == start + SLICE_SIZE * ExpectedBucketSlice(k) + INFO_SIZE * (j % INFOS_PER_SLICE);
  }

  /** Different slices have different records. */
  lemma InfoAddrInjective(start: int, bucket: seq<nat>, i: nat, j: nat)
    requires i / INFOS_PER_SLICE < |bucket| && j / INFOS_PER_SLICE < |bucket|
    requires forall k, l :: 0 <= k < l < |bucket| ==> bucket[k] != bucket[l]
    requires InfoAddr(start, bucket, i) == InfoAddr(start, bucket, j)
    ensures i == j
  {
  }

  /** A record is 16 bytes of the slice that holds its bucket, and the records of different slices do not overlap. */
  lemma RecordsApart(start: int, bucket: seq<nat>, i: nat, j: nat)
    requires i / 512 < |bucket| && j / 512 < |bucket| && i != j && forall k, l :: 0 <= k < l < |bucket| ==> bucket[k] != bucket[l]
    ensures start + 8192 * bucket[i / 512] <= InfoAddr(start, bucket, i) && InfoAddr(start, bucket, i) + 16 <= start + 8192 * (bucket[i / 512] + 1)
    ensures InfoAddr(start, bucket, i) + 16 <= InfoAddr(start, bucket, j) || InfoAddr(start, bucket, j) + 16 <= InfoAddr(start, bucket, i)
  {
  }

  /** The lookup in one formula: 4 MiB to a bucket, whose records are in the slice before it, or for the first in its first slice. */
  lemma LookupInNumbers(start: int, p: int)
    requires start <= p
    ensures var k, index := (p - start) / 0x40_0000, (p - start) % 0x40_0000 / 0x2000;
      LookupAddr(start, p) == start + (if k == 0 then 0 else 0x40_0000 * k - 0x2000) + 16 * index
  {
    var k, rest := (p - start) / 0x40_0000, (p - start) % 0x40_0000;
    assert p - (start + k * 0x40_0000) == rest;
  }

  // ----- What a record says -----

  /** The list a record is on agrees with its type and its `filled` bits. */
  ghost predicate Agrees(o: Owner, e: Info) {
    match o
    case Unused => !e.reserved && e.filled == 0 && !e.typ.BucketInfo?
    case L2Partial => !e.reserved && e.typ.L2PageTable? && e.filled != 0 && e.filled != 0xff
    case PagePartial => !e.reserved && e.typ.Page? && (e.filled == 1 || e.filled == 2)
    case Allocated =>
      || (e.typ.L1PageTable? && e.filled == 0)
      || (!e.reserved && e.typ.BucketInfo?)
      || (!e.reserved && e.typ.L2PageTable? && e.filled == 0xff)
      || (!e.reserved && e.typ.Page? && e.filled == 3)
  }

  /** A block of the given kind is live at offset `off` of the slice described by `e`. */
  ghost predicate LiveIn(kind: MemoryType, off: int, e: Info, o: Owner)
    requires 0 <= off < SLICE_SIZE
  {
    && e.typ == kind && !e.reserved && off % Size(kind) == 0
    && match kind
       case L1PageTable => o == Allocated
       case BucketInfo => false
       case L2PageTable => HasBit(e.filled, off / 1024)
       case Page => HasBit(e.filled, off / 4096)
  }

  // ----- How many slices are left to hold records -----

  /** Slices on the unused list once slices 1..j have been indexed: each unreserved slice adds one, and
      finishing a bucket takes one to hold the next bucket's records. */
  ghost function SpareSlices(reserved: int -> bool, start: int, j: nat): int {
    if j == 0 then 0
    else SpareSlices(reserved, start, j - 1)
         + (if reserved(start + SLICE_SIZE * j) then 0 else 1)
         - (if (j + 1) % INFOS_PER_SLICE == 0 then 1 else 0)
  }

  /** `pmm_init` never pops the empty unused list. */
  ghost predicate EnoughSpares(reserved: int -> bool, start: int, n: nat) {
    forall j :: 1 <= j < n ==> SpareSlices(reserved, start, j) >= 0
  }

  /** When the reserved region is the tail from slice `first` on, indexing succeeds exactly when the slices
      before the tail outnumber the buckets of records. */
  lemma ReservedTailSpares(reserved: int -> bool, start: int, first: nat, n: nat)
    requires 1 <= first <= n
    requires forall j: nat :: j < n ==> (reserved(start + SLICE_SIZE * j) <==> j >= first)
    ensures EnoughSpares(reserved, start, n) <==> first - 1 >= n / INFOS_PER_SLICE
  {
    forall j: nat | j < n
      ensures SpareSlices(reserved, start, j) == (if j < first then j else first - 1) - (j + 1) / INFOS_PER_SLICE
    {
      TailSpares(reserved, start, first, n, j);
    }
    assert SpareSlices(reserved, start, n - 1) == (if n - 1 < first then n - 1 else first - 1) - n / INFOS_PER_SLICE;
  }

  lemma {:induction false} TailSpares(reserved: int -> bool, start: int, first: nat, n: nat, j: nat)
    requires 1 <= first <= n && j < n
    requires forall j: nat :: j < n ==> (reserved(start + SLICE_SIZE * j) <==> j >= first)
    ensures SpareSlices(reserved, start, j) == (if j < first then j else first - 1) - (j + 1) / INFOS_PER_SLICE
  {
    if j > 0 {
      TailSpares(reserved, start, first, n, j - 1);
    }
  }

  // ----- The manager's state, as values -----

  /** What `pmm_init` fixes for good: the managed region and the slice holding each bucket's records. */
  datatype Layout = Layout(start: int, n: nat, reserved: int -> bool, bucket: seq<nat>) {
    ghost function At(j: nat): int
      requires j / INFOS_PER_SLICE < |bucket|
    {
      InfoAddr(start, bucket, j)
    }

    ghost function SliceAddr(j: int): int {
      start + SLICE_SIZE * j
    }

    /** Room for the records of slices 0..upto, in distinct slices; each bucket's records are in the slice the
        lookup expects exactly when that slice is usable. */
    ghost predicate Buckets(upto: nat) {
      && 1 <= upto
      && (upto - 1) / INFOS_PER_SLICE < |bucket| <= upto / INFOS_PER_SLICE + 1
      && bucket[0] == 0
      && (forall k, l :: 0 <= k < l < |bucket| ==> bucket[k] != bucket[l])
      && (forall k :: 0 <= k < |bucket| ==> bucket[k] < upto && bucket[k] / INFOS_PER_SLICE < |bucket|)
      && (forall k :: 1 <= k < |bucket| ==>
           (bucket[k] == ExpectedBucketSlice(k) <==> !reserved(SliceAddr(ExpectedBucketSlice(k)))))
    }

    ghost predicate Region() {
      0 < start && start % SLICE_SIZE == 0 && 1 <= n && start + SLICE_SIZE * n <= ADDRESS_SPACE
    }

    /** The record of slice `j` is in place. */
    ghost predicate Describes(m: Infos, j: nat)
      requires j / INFOS_PER_SLICE < |bucket|
    {
      && At(j) in m && m[At(j)].slice == SliceAddr(j)
      && (m[At(j)].reserved <==> j > 0 && reserved(SliceAddr(j)))
    }

    /** `x` is the address of the record of the slice it names. */
    ghost predicate IsRecord(m: Infos, x: int, upto: nat)
      requires Buckets(upto) && x in m
    {
      var j := SliceOf(start, m[x].slice);
      0 <= j < upto && At(j) == x
    }

    /** Memory holds exactly one record for each of the slices 0..upto, each on a list that agrees with it,
        and the slices holding records are marked as such. */
    ghost predicate Holds(m: Infos, owner: map<int, Owner>, upto: nat) {
      && Buckets(upto)
      && owner.Keys == m.Keys
      && (forall j: nat :: j < upto ==> Describes(m, j))
      && (forall x :: x in m ==> IsRecord(m, x, upto) && Agrees(owner[x], m[x]))
      && (forall k :: 0 <= k < |bucket| ==> At(bucket[k]) in m && m[At(bucket[k])].typ == BucketInfo)
    }

    /** The block is handed out. */
    ghost predicate Live(m: Infos, owner: map<int, Owner>, b: Block)
      requires Holds(m, owner, n)
    {
      var j := SliceOf(start, b.addr);
      0 <= j < n && Describes(m, j) && LiveIn(b.kind, (b.addr - start) % SLICE_SIZE, m[At(j)], owner[At(j)])
    }

    /** The block avoids everything the manager keeps for itself. */
    ghost predicate Usable(b: Block) {
      && start <= b.addr && b.addr + Size(b.kind) <= SliceAddr(n)
      && (forall k :: 0 <= k < |bucket| ==>
           b.addr + Size(b.kind) <= SliceAddr(bucket[k]) || SliceAddr(bucket[k] + 1) <= b.addr)
      && (forall j :: 0 < j < n && reserved(SliceAddr(j)) ==>
           b.addr + Size(b.kind) <= SliceAddr(j) || SliceAddr(j + 1) <= b.addr)
    }

    /** The lookup can find the record for `p`: the slice it expects to hold the bucket's records is usable. */
    ghost predicate Findable(p: int) {
      var k := SliceOf(start, p) / INFOS_PER_SLICE;
      k <= 0 || !reserved(SliceAddr(ExpectedBucketSlice(k)))
    }

    ghost predicate AllFindable() {
      forall j :: 0 <= j < n && !reserved(SliceAddr(j)) ==> Findable(SliceAddr(j))
    }
  }

  /** `m'` is `m` after one record `x` that describes an ordinary slice changed at most in type and bits. */
  ghost predicate OnlyRecord(m: Infos, m': Infos, x: int) {
    && m'.Keys == m.Keys && x in m
    && (forall y :: y in m && y != x ==> SameBody(m[y], m'[y]))
    && m'[x].slice == m[x].slice && m'[x].reserved == m[x].reserved && m[x].typ != BucketInfo
  }

  /** Moving one ordinary record to list `o` keeps the manager's state sound... */
  lemma MovedHolds(L: Layout, m: Infos, owner: map<int, Owner>, m': Infos, x: int, o: Owner, upto: nat)
    requires L.Holds(m, owner, upto) && OnlyRecord(m, m', x) && Agrees(o, m'[x])
    ensures L.Holds(m', owner[x := o], upto)
  {
    hide Agrees, InfoAddr;
    forall y | y in m' && y != x
      ensures Agrees(owner[y], m'[y])
    {
      BodyDecidesList(owner[y], m[y], m'[y]);
    }
    forall j: nat | j < upto
      ensures L.Describes(m', j)
    {
      assert L.Describes(m, j);
    }
    forall y | y in m'
      ensures L.IsRecord(m', y, upto)
    {
      assert L.IsRecord(m, y, upto);
    }
    forall k | 0 <= k < |L.bucket|
      ensures L.At(L.bucket[k]) in m' && m'[L.At(L.bucket[k])].typ == BucketInfo
    {
      assert m[L.At(L.bucket[k])].typ == BucketInfo;
    }
  }

  /** ... and every block outside that record's slice as live, or as free, as before. */
  lemma MovedLive(L: Layout, m: Infos, owner: map<int, Owner>, m': Infos, x: int, o: Owner, b: Block)
    requires L.Holds(m, owner, L.n) && OnlyRecord(m, m', x) && Agrees(o, m'[x])
    ensures L.Holds(m', owner[x := o], L.n)
    ensures SliceOf(L.start, b.addr) != SliceOf(L.start, m[x].slice) ==>
              (L.Live(m', owner[x := o], b) <==> L.Live(m, owner, b))
    ensures SliceOf(L.start, b.addr) == SliceOf(L.start, m[x].slice) ==>
              && (L.Live(m, owner, b) <==> LiveIn(b.kind, (b.addr - L.start) % SLICE_SIZE, m[x], owner[x]))
              && (L.Live(m', owner[x := o], b) <==> LiveIn(b.kind, (b.addr - L.start) % SLICE_SIZE, m'[x], o))
  {
    hide LiveIn, Agrees, InfoAddr;
    MovedHolds(L, m, owner, m', x, o, L.n);
    var j := SliceOf(L.start, b.addr);
    assert L.IsRecord(m, x, L.n);
    if 0 <= j < L.n {
      assert L.Describes(m, j) && L.Describes(m', j);
      if L.At(j) == x {
        SliceOfSlice(L, j);
      } else {
        BodyDecidesLive(b.kind, (b.addr - L.start) % SLICE_SIZE, m[L.At(j)], m'[L.At(j)], owner[L.At(j)]);
      }
    }
  }

  lemma BodyDecidesLive(kind: MemoryType, off: int, e: Info, e': Info, o: Owner)
    requires 0 <= off < SLICE_SIZE && SameBody(e, e')
    ensures LiveIn(kind, off, e, o) <==> LiveIn(kind, off, e', o)
  {
  }

  lemma BodyDecidesList(o: Owner, e: Info, e': Info)
    requires SameBody(e, e')
    ensures Agrees(o, e) <==> Agrees(o, e')
  {
  }

  lemma SliceOfSlice(L: Layout, j: nat)
    ensures SliceOf(L.start, L.SliceAddr(j)) == j
  {
  }

  /** Addresses of a slice are told apart by their offset in it. */
  lemma OffsetInSlice(L: Layout, m: Infos, owner: map<int, Owner>, x: int, p: int)
    requires L.Holds(m, owner, L.n) && x in m
    ensures (m[x].slice - L.start) % SLICE_SIZE == 0
    ensures SliceOf(L.start, p) == SliceOf(L.start, m[x].slice) <==> m[x].slice <= p < m[x].slice + SLICE_SIZE
    ensures m[x].slice <= p < m[x].slice + SLICE_SIZE ==> (p - L.start) % SLICE_SIZE == p - m[x].slice
  {
    hide *;
    RecordSlice(L, m, owner, x);
    SliceArithmetic(L.start, SliceOf(L.start, m[x].slice), m[x].slice, p);
  }

  lemma RecordSlice(L: Layout, m: Infos, owner: map<int, Owner>, x: int)
    requires L.Holds(m, owner, L.n) && x in m
    ensures m[x].slice == L.start + SLICE_SIZE * SliceOf(L.start, m[x].slice)
  {
    assert L.IsRecord(m, x, L.n);
    hide SliceOf, InfoAddr, Agrees;
    assert L.Describes(m, SliceOf(L.start, m[x].slice));
  }

  lemma SliceArithmetic(start: int, j: int, a: int, p: int)
    requires a == start + SLICE_SIZE * j
    ensures (a - start) % SLICE_SIZE == 0
    ensures SliceOf(start, p) == SliceOf(start, a) <==> a <= p < a + SLICE_SIZE
    ensures a <= p < a + SLICE_SIZE ==> (p - start) % SLICE_SIZE == p - a
  {
  }

  /** Taking an unused slice for an L1 table makes exactly that block live. */
  lemma ClaimWhole(L: Layout, m: Infos, owner: map<int, Owner>, m': Infos, x: int, c: Block)
    requires L.Holds(m, owner, L.n) && OnlyRecord(m, m', x) && owner[x] == Unused
    requires m'[x].typ == L1PageTable && m'[x].filled == m[x].filled
    ensures L.Holds(m', owner[x := Allocated], L.n)
    ensures L.Live(m', owner[x := Allocated], c) <==> L.Live(m, owner, c) || c == Block(L1PageTable, m[x].slice)
    ensures c == Block(L1PageTable, m[x].slice) ==> !L.Live(m, owner, c)
  {
    hide Layout.Holds, Layout.Live;
    assert Agrees(Unused, m[x]) by { AgreesAt(L, m, owner, x); }
    MovedLive(L, m, owner, m', x, Allocated, c);
    OffsetInSlice(L, m, owner, x, c.addr);
  }

  /** Freeing an L1 table makes exactly that block dead. */
  lemma ReleaseWhole(L: Layout, m: Infos, owner: map<int, Owner>, m': Infos, x: int, c: Block)
    requires L.Holds(m, owner, L.n) && OnlyRecord(m, m', x) && owner[x] == Allocated
    requires m[x].typ == L1PageTable && !m[x].reserved && SameBody(m[x], m'[x])
    ensures L.Holds(m', owner[x := Unused], L.n)
    ensures L.Live(m', owner[x := Unused], c) <==> L.Live(m, owner, c) && c != Block(L1PageTable, m[x].slice)
  {
    hide Layout.Holds, Layout.Live;
    AgreesAt(L, m, owner, x);
    MovedLive(L, m, owner, m', x, Unused, c);
    OffsetInSlice(L, m, owner, x, c.addr);
  }

  lemma WholeReleased(L: Layout, m: Infos, owner: map<int, Owner>, m': Infos, x: int)
    requires L.Holds(m, owner, L.n) && Relinked(m, m') && x in owner && owner[x] == Allocated
    requires m[x].typ == L1PageTable && !m[x].reserved
    ensures L.Holds(m', owner[x := Unused], L.n)
    ensures forall c :: L.Live(m', owner[x := Unused], c) <==> L.Live(m, owner, c) && c != Block(L1PageTable, m[x].slice)
  {
    assert OnlyRecord(m, m', x) && SameBody(m[x], m'[x]);
    hide Layout.Holds, Layout.Live, OnlyRecord, Relinked;
    var owner' := owner[x := Unused];
    ReleaseWhole(L, m, owner, m', x, Block(L1PageTable, m[x].slice));
    forall c
      ensures L.Live(m', owner', c) <==> L.Live(m, owner, c) && c != Block(L1PageTable, m[x].slice)
    {
      ReleaseWhole(L, m, owner, m', x, c);
    }
  }

  lemma NullIsDead(L: Layout, m: Infos, owner: map<int, Owner>)
    requires L.Region() && L.Holds(m, owner, L.n)
    ensures forall kind :: !L.Live(m, owner, Block(kind, NULL))
  {
  }

  /** How many blocks of a kind fit a slice, for the two kinds that share one. */
  function PerSlice(kind: MemoryType): nat {
    if kind == L2PageTable then 8 else 2
  }

  /** The `filled` value of a slice with no block left, and the list of slices with some left. */
  function Full(kind: MemoryType): bv8 {
    if kind == L2PageTable then 0xff else 0x3
  }

  function PartialList(kind: MemoryType): Owner {
    if kind == L2PageTable then L2Partial else PagePartial
  }

  /** The next free block of a partly filled slice, and where its record goes once it is taken. */
  method NextFree(kind: MemoryType, e: Info) returns (i: nat)
    requires (kind == L2PageTable || kind == Page) && Agrees(PartialList(kind), e)
    ensures e.typ == kind && !e.reserved
    ensures i < PerSlice(kind) && !HasBit(e.filled, i)
    ensures var e' := e.(filled := Or(e.filled, i));
      Agrees(if e'.filled == Full(kind) then Allocated else PartialList(kind), e')
  {
    FirstFreeIsLeastClearBit(e.filled);
    i := FirstFree(e.filled as bv16);
    SetBit(e.filled, i, i);
    assert kind == Page && i > 1 ==> HasBit(e.filled, 0) && HasBit(e.filled, 1);
  }

  /** The list a slice with a live part is on, and where its record goes once the part is freed. */
  lemma AfterFree(kind: MemoryType, e: Info, o: Owner, i: nat)
    requires (kind == L2PageTable || kind == Page) && Agrees(o, e) && e.typ == kind && i < PerSlice(kind) && HasBit(e.filled, i)
    ensures o == if e.filled == Full(kind) then Allocated else PartialList(kind)
    ensures var e' := e.(filled := AndNot(e.filled, i));
      Agrees(if e'.filled == 0 then Unused else PartialList(kind), e')
  {
  }

  /** Setting bit `i` of a slice used for `kind` makes exactly the i-th block live. */
  lemma ClaimPart(L: Layout, m: Infos, owner: map<int, Owner>, m': Infos, x: int, o: Owner, kind: MemoryType, i: nat, c: Block)
    requires kind == L2PageTable || kind == Page
    requires L.Holds(m, owner, L.n) && OnlyRecord(m, m', x) && Agrees(o, m'[x]) && !m[x].reserved
    requires owner[x] == Unused || m[x].typ == kind
    requires i < PerSlice(kind) && m'[x].typ == kind && !HasBit(m[x].filled, i) && m'[x].filled == Or(m[x].filled, i)
    ensures L.Holds(m', owner[x := o], L.n)
    ensures var b := Block(kind, m[x].slice + Size(kind) * i);
      && (L.Live(m', owner[x := o], c) <==> L.Live(m, owner, c) || c == b)
      && (c == b ==> !L.Live(m, owner, c))
  {
    hide Layout.Holds, Layout.Live, LiveIn, HasBit, Agrees, SliceOf, Or, AndNot;
    AgreesAt(L, m, owner, x);
    MovedLive(L, m, owner, m', x, o, c);
    OffsetInSlice(L, m, owner, x, c.addr);
    BlockOffset(kind, m[x].slice, i, c.addr);
    if m[x].slice <= c.addr < m[x].slice + SLICE_SIZE {
      PartBit(kind, c.addr - m[x].slice, m[x], owner[x], m'[x], o, i);
    }
  }

  lemma PartClaimed(L: Layout, m: Infos, owner: map<int, Owner>, m': Infos, x: int, o: Owner, kind: MemoryType, i: nat)
    requires kind == L2PageTable || kind == Page
    requires L.Holds(m, owner, L.n) && OnlyRecord(m, m', x) && Agrees(o, m'[x]) && !m[x].reserved
    requires owner[x] == Unused || m[x].typ == kind
    requires i < PerSlice(kind) && m'[x].typ == kind && !HasBit(m[x].filled, i) && m'[x].filled == Or(m[x].filled, i)
    ensures L.Holds(m', owner[x := o], L.n)
    ensures var b := Block(kind, m[x].slice + Size(kind) * i);
      && !L.Live(m, owner, b)
      && forall c :: L.Live(m', owner[x := o], c) <==> L.Live(m, owner, c) || c == b
  {
    hide Layout.Holds, Layout.Live, HasBit, Agrees, Mask, Or;
    var b, owner' := Block(kind, m[x].slice + Size(kind) * i), owner[x := o];
    ClaimPart(L, m, owner, m', x, o, kind, i, b);
    forall c
      ensures L.Live(m', owner', c) <==> L.Live(m, owner, c) || c == b
    {
      ClaimPart(L, m, owner, m', x, o, kind, i, c);
    }
  }

  lemma PartBit(kind: MemoryType, off: int, e: Info, o: Owner, e': Info, o': Owner, i: nat)
    requires kind == L2PageTable || kind == Page
    requires 0 <= off < SLICE_SIZE && i < PerSlice(kind) && !e.reserved && !e'.reserved
    requires Agrees(o, e) && (o == Unused || e.typ == kind)
    requires e'.typ == kind && !HasBit(e.filled, i) && e'.filled == Or(e.filled, i)
    ensures forall k :: LiveIn(k, off, e', o') <==> (LiveIn(k, off, e, o) || (k == kind && off == Size(kind) * i))
    ensures !LiveIn(kind, Size(kind) * i, e, o)
  {
    SetBit(e.filled, i, off / Size(kind));
  }

  /** Clearing bit `i` of a slice used for `kind` makes exactly the i-th block dead. */
  lemma ReleasePart(L: Layout, m: Infos, owner: map<int, Owner>, m': Infos, x: int, o: Owner, kind: MemoryType, i: nat, c: Block)
    requires kind == L2PageTable || kind == Page
    requires L.Holds(m, owner, L.n) && OnlyRecord(m, m', x) && Agrees(o, m'[x]) && !m[x].reserved
    requires m[x].typ == m'[x].typ == kind && i < PerSlice(kind) && m'[x].filled == AndNot(m[x].filled, i)
    ensures L.Holds(m', owner[x := o], L.n)
    ensures L.Live(m', owner[x := o], c) <==> L.Live(m, owner, c) && c != Block(kind, m[x].slice + Size(kind) * i)
  {
    hide Layout.Holds, Layout.Live, LiveIn, HasBit, Agrees, SliceOf, Or, AndNot, Size, PerSlice;
    AgreesAt(L, m, owner, x);
    MovedLive(L, m, owner, m', x, o, c);
    OffsetInSlice(L, m, owner, x, c.addr);
    BlockOffset(kind, m[x].slice, i, c.addr);
    if m[x].slice <= c.addr < m[x].slice + SLICE_SIZE {
      PartUnbit(kind, c.addr - m[x].slice, m[x], owner[x], m'[x], o, i);
      assert c == Block(kind, m[x].slice + Size(kind) * i) <==> c.kind == kind && c.addr - m[x].slice == Size(kind) * i;
    } else {
      assert c != Block(kind, m[x].slice + Size(kind) * i);
    }
  }

  lemma PartReleased(L: Layout, m: Infos, owner: map<int, Owner>, m': Infos, x: int, o: Owner, kind: MemoryType, i: nat)
    requires kind == L2PageTable || kind == Page
    requires L.Holds(m, owner, L.n) && OnlyRecord(m, m', x) && Agrees(o, m'[x]) && !m[x].reserved
    requires m[x].typ == m'[x].typ == kind && i < PerSlice(kind) && m'[x].filled == AndNot(m[x].filled, i)
    ensures L.Holds(m', owner[x := o], L.n)
    ensures var b := Block(kind, m[x].slice + Size(kind) * i);
      forall c :: L.Live(m', owner[x := o], c) <==> L.Live(m, owner, c) && c != b
  {
    hide Layout.Holds, Layout.Live, HasBit, Agrees, Mask, AndNot;
    var b, owner' := Block(kind, m[x].slice + Size(kind) * i), owner[x := o];
    ReleasePart(L, m, owner, m', x, o, kind, i, b);
    forall c
      ensures L.Live(m', owner', c) <==> L.Live(m, owner, c) && c != b
    {
      ReleasePart(L, m, owner, m', x, o, kind, i, c);
    }
  }

  /** What the record of a live block's slice says. */
  lemma LiveRecord(L: Layout, m: Infos, owner: map<int, Owner>, b: Block)
    requires L.Holds(m, owner, L.n) && L.Live(m, owner, b)
    ensures L.start <= b.addr < L.start + SLICE_SIZE * L.n
    ensures var j := SliceOf(L.start, b.addr);
            var x := L.At(j);
      && x in m && x in owner && !m[x].reserved && m[x].typ == b.kind && Agrees(owner[x], m[x])
      && m[x].slice == L.SliceAddr(j)
      && (b.kind == L1PageTable ==> b.addr == m[x].slice && owner[x] == Allocated)
      && (b.kind == L2PageTable || b.kind == Page ==>
           var i := (b.addr - m[x].slice) / Size(b.kind);
           0 <= i < PerSlice(b.kind) && b.addr == m[x].slice + Size(b.kind) * i && HasBit(m[x].filled, i))
      && b.kind != BucketInfo
  {
    hide LiveIn, Agrees, InfoAddr;
    var j := SliceOf(L.start, b.addr);
    assert L.Describes(m, j);
    AgreesAt(L, m, owner, L.At(j));
    assert (b.addr - L.start) % SLICE_SIZE == b.addr - L.SliceAddr(j);
    LiveInOffset(b.kind, b.addr - L.SliceAddr(j), m[L.At(j)], owner[L.At(j)]);
  }

  lemma LiveInOffset(kind: MemoryType, off: int, e: Info, o: Owner)
    requires 0 <= off < SLICE_SIZE && LiveIn(kind, off, e, o) && Agrees(o, e)
    ensures !e.reserved && e.typ == kind != BucketInfo
    ensures kind == L1PageTable ==> off == 0 && o == Allocated
    ensures kind == L2PageTable || kind == Page ==>
      0 <= off / Size(kind) < PerSlice(kind) && off == Size(kind) * (off / Size(kind)) && HasBit(e.filled, off / Size(kind))
  {
  }

  lemma PartUnbit(kind: MemoryType, off: int, e: Info, o: Owner, e': Info, o': Owner, i: nat)
    requires kind == L2PageTable || kind == Page
    requires 0 <= off < SLICE_SIZE && i < PerSlice(kind) && !e.reserved && !e'.reserved
    requires e.typ == e'.typ == kind && e'.filled == AndNot(e.filled, i)
    ensures forall k :: LiveIn(k, off, e', o') <==> LiveIn(k, off, e, o) && (k != kind || off != Size(kind) * i)
  {
    ClearBit(e.filled, i, off / Size(kind));
  }

  lemma BlockOffset(kind: MemoryType, slice: int, i: nat, p: int)
    requires kind == L2PageTable || kind == Page
    requires i < PerSlice(kind)
    ensures p == slice + Size(kind) * i ==> slice <= p < slice + SLICE_SIZE && p - slice == Size(kind) * i
  {
  }

  lemma BitZero()
    ensures !HasBit(0, 0) && Or(0, 0) == 1
  {
  }

  /** Rewriting one record and then relinking changes no other record's body. */
  lemma OnlyThat(m: Infos, m1: Infos, m': Infos, x: int)
    requires m1.Keys == m.Keys && x in m && (forall y :: y in m && y != x ==> SameBody(m[y], m1[y]))
    requires m1[x].slice == m[x].slice && m1[x].reserved == m[x].reserved && m[x].typ != BucketInfo
    requires Relinked(m1, m')
    ensures OnlyRecord(m, m', x)
  {
  }

  lemma RelinkedTwice(m: Infos, m1: Infos, m2: Infos)
    requires Relinked(m, m1) && Relinked(m1, m2)
    ensures Relinked(m, m2)
  {
  }

  lemma RewrittenOnly(m: Infos, x: int, e: Info)
    requires x in m && e.slice == m[x].slice && e.reserved == m[x].reserved && m[x].typ != BucketInfo
    ensures OnlyRecord(m, m[x := e], x)
  {
  }

  lemma RelinkedOnly(m: Infos, m1: Infos, m': Infos, x: int, o: Owner)
    requires OnlyRecord(m, m1, x) && Relinked(m1, m') && Agrees(o, m1[x])
    ensures OnlyRecord(m, m', x) && x in m' && SameBody(m1[x], m'[x]) && Agrees(o, m'[x])
  {
  }

  lemma RefilledOnly(m: Infos, m1: Infos, m2: Infos, m3: Infos, x: int, filled: bv8, o: Owner)
    requires x in m && m[x].typ != BucketInfo && Agrees(o, m[x].(filled := filled))
    requires Relinked(m, m1) && x in m1 && m2 == m1[x := m1[x].(filled := filled)] && Relinked(m2, m3)
    ensures OnlyRecord(m, m3, x) && Agrees(o, m3[x]) && m3[x].filled == filled && m3[x].typ == m[x].typ
  {
  }

  lemma RelinkedAt(m: Infos, m': Infos, x: int)
    requires Relinked(m, m') && x in m
    ensures x in m' && SameBody(m[x], m'[x])
  {
  }

  lemma AgreesAt(L: Layout, m: Infos, owner: map<int, Owner>, x: int)
    requires L.Holds(m, owner, L.n) && (x in m || x in owner)
    ensures owner.Keys == m.Keys && Agrees(owner[x], m[x]) && L.start <= m[x].slice
  {
  }

  // ----- Building the state -----

  /** Indexing slice `j` adds its record and nothing else. */
  lemma AddRecord(L: Layout, m: Infos, owner: map<int, Owner>, j: nat, e: Info, o: Owner, m': Infos)
    requires 1 <= j && L.Holds(m, owner, j) && |L.bucket| == j / INFOS_PER_SLICE + 1
    requires e.slice == L.SliceAddr(j) && (e.reserved <==> L.reserved(L.SliceAddr(j))) && Agrees(o, e)
    requires L.At(j) !in m && Relinked(m[L.At(j) := e], m')
    ensures L.Holds(m', owner[L.At(j) := o], j + 1)
  {
    hide Agrees, InfoAddr;
    var m1, a, owner' := m[L.At(j) := e], L.At(j), owner[L.At(j) := o];
    forall i: nat | i < j + 1
      ensures L.Describes(m', i)
    {
      if i < j {
        assert L.Describes(m, i);
      }
      assert SameBody(m1[L.At(i)], m'[L.At(i)]);
    }
    forall x | x in m'
      ensures L.IsRecord(m', x, j + 1) && Agrees(owner'[x], m'[x])
    {
      assert SameBody(m1[x], m'[x]);
      BodyDecidesList(owner'[x], m1[x], m'[x]);
      if x == a {
        SliceOfSlice(L, j);
      } else {
        assert L.IsRecord(m, x, j);
      }
    }
    forall k | 0 <= k < |L.bucket|
      ensures L.At(L.bucket[k]) in m' && m'[L.At(L.bucket[k])].typ == BucketInfo
    {
      assert m[L.At(L.bucket[k])].typ == BucketInfo;
      assert SameBody(m1[L.At(L.bucket[k])], m'[L.At(L.bucket[k])]);
    }
  }

  /** The place for slice `j`'s record is not in use. */
  lemma RecordIsNew(L: Layout, m: Infos, owner: map<int, Owner>, j: nat)
    requires 1 <= j && L.Holds(m, owner, j) && |L.bucket| == j / INFOS_PER_SLICE + 1
    ensures L.At(j) !in m
  {
    hide Agrees;
    if L.At(j) in m {
      var i := SliceOf(L.start, m[L.At(j)].slice);
      assert L.IsRecord(m, L.At(j), j);
      InfoAddrInjective(L.start, L.bucket, i, j);
    }
  }

  /** Turning an unused slice into the home of the next bucket's records. */
  lemma AddBucket(L: Layout, m: Infos, owner: map<int, Owner>, upto: nat, x: int, m': Infos)
    requires L.Holds(m, owner, upto) && |L.bucket| * INFOS_PER_SLICE == upto
    requires OnlyRecord(m, m', x) && owner[x] == Unused && m'[x].typ == BucketInfo
    requires !L.reserved(L.SliceAddr(upto - 1)) ==> m[x].slice == L.SliceAddr(upto - 1)
    ensures var L' := L.(bucket := L.bucket + [SliceOf(L.start, m[x].slice)]);
      L'.Holds(m', owner[x := Allocated], upto)
  {
    hide Agrees, InfoAddr;
    var j := SliceOf(L.start, m[x].slice);
    var L', owner' := L.(bucket := L.bucket + [j]), owner[x := Allocated];
    assert L.IsRecord(m, x, upto) && L.Describes(m, j) && L.Describes(m, upto - 1);
    UnusedFacts(m[x], m'[x]);
    MovedHolds(L, m, owner, m', x, Allocated, upto);
    assert L.Holds(m', owner', upto);
    forall k | 0 <= k < |L.bucket|
      ensures L.bucket[k] != j
    {
      assert m[L.At(L.bucket[k])].typ == BucketInfo;
    }
    MoreBuckets(L, m', owner', upto, j);
  }

  lemma UnusedFacts(e: Info, e': Info)
    requires Agrees(Unused, e)
    ensures !e.reserved && e.typ != BucketInfo
    ensures e'.typ == BucketInfo && e'.reserved == e.reserved ==> Agrees(Allocated, e')
  {
  }

  lemma SameAt(L: Layout, j: nat, i: nat)
    requires i / INFOS_PER_SLICE < |L.bucket|
    ensures L.(bucket := L.bucket + [j]).At(i) == L.At(i)
  {
  }

  lemma MoreBuckets(L: Layout, m: Infos, owner: map<int, Owner>, upto: nat, j: nat)
    requires L.Holds(m, owner, upto) && |L.bucket| * INFOS_PER_SLICE == upto && j < upto
    requires j !in L.bucket && L.At(j) in m && m[L.At(j)].typ == BucketInfo
    requires j == upto - 1 <==> !L.reserved(L.SliceAddr(upto - 1))
    ensures L.(bucket := L.bucket + [j]).Holds(m, owner, upto)
  {
    hide Agrees, InfoAddr;
    var L' := L.(bucket := L.bucket + [j]);
    forall i: nat | i < upto
      ensures L'.At(i) == L.At(i) && L'.Describes(m, i)
    {
      SameAt(L, j, i);
      assert L.Describes(m, i);
    }
    forall x | x in m
      ensures L'.IsRecord(m, x, upto)
    {
      assert L.IsRecord(m, x, upto);
    }
    forall k | 0 <= k < |L'.bucket|
      ensures L'.bucket[k] < upto && L'.At(L'.bucket[k]) in m && m[L'.At(L'.bucket[k])].typ == BucketInfo
    {
      if k < |L.bucket| {
        assert m[L.At(L.bucket[k])].typ == BucketInfo;
      }
    }
  }
  /** No record describes anything handed out. */
  ghost predicate Untouched(m: Infos, owner: map<int, Owner>) {
    owner.Keys == m.Keys && forall x :: x in m ==>
      m[x].typ == BucketInfo || (m[x].typ == L1PageTable && (owner[x] == Unused || m[x].reserved))
  }

  lemma UntouchedIsDead(L: Layout, m: Infos, owner: map<int, Owner>, b: Block)
    requires L.Holds(m, owner, L.n) && Untouched(m, owner)
    ensures !L.Live(m, owner, b)
  {
  }

  /** The state `pmm_init` starts from: slice 0 holds one record, its own. */
  lemma FirstRecord(L: Layout, m: Infos, owner: map<int, Owner>, heads: PerList<int>, lists: PerList<seq<int>>)
    requires L.Region() && L.bucket == [0]
    requires m == map[L.start := Info(BucketInfo, 1, false, NULL, NULL, L.start)] && owner == map[L.start := Allocated]
    requires heads == PerList(NULL, L.start, NULL, NULL) && lists == PerList([], [L.start], [], [])
    ensures L.Holds(m, owner, 1) && Lists(m, heads, lists, owner) && Untouched(m, owner)
  {
    assert L.At(0) == L.start && L.Describes(m, 0) && L.IsRecord(m, L.start, 1);
    forall o
      ensures ListOk(m, heads, lists, owner, o)
    {
    }
  }

  lemma RecordAddress(L: Layout, m: Infos, owner: map<int, Owner>, j: nat)
    requires L.Region() && L.Holds(m, owner, j) && |L.bucket| == j / INFOS_PER_SLICE + 1
    ensures L.At(j) != NULL && owner.Keys == m.Keys
  {
  }

  lemma UntouchedRecord(m: Infos, owner: map<int, Owner>, a: int, e: Info, o: Owner, m': Infos)
    requires Untouched(m, owner) && a !in m && Relinked(m[a := e], m')
    requires e.typ == L1PageTable && (o == Unused || e.reserved)
    ensures Untouched(m', owner[a := o])
    ensures a in m' && SameBody(e, m'[a])
  {
  }

  lemma UntouchedBucket(m: Infos, owner: map<int, Owner>, m': Infos, x: int)
    requires Untouched(m, owner) && OnlyRecord(m, m', x) && m'[x].typ == BucketInfo
    ensures Untouched(m', owner[x := Allocated])
  {
  }

  lemma UnusedRecord(L: Layout, m: Infos, owner: map<int, Owner>, x: int, upto: nat)
    requires L.Holds(m, owner, upto) && x in owner && owner[x] == Unused
    ensures owner.Keys == m.Keys && m[x].typ != BucketInfo && SliceOf(L.start, m[x].slice) >= 0
    ensures m[x].slice == L.SliceAddr(SliceOf(L.start, m[x].slice))
    ensures x == L.At(upto - 1) ==> m[x].slice == L.SliceAddr(upto - 1)
  {
    hide InfoAddr;
    assert L.IsRecord(m, x, upto);
    assert L.Describes(m, SliceOf(L.start, m[x].slice)) && L.Describes(m, upto - 1);
  }

  lemma BucketOnly(m: Infos, m1: Infos, m2: Infos, m3: Infos, x: int)
    requires x in m && m[x].typ != BucketInfo
    requires Relinked(m, m1) && x in m1 && m2 == m1[x := m1[x].(typ := BucketInfo, filled := 0)] && Relinked(m2, m3)
    ensures OnlyRecord(m, m3, x) && m3[x].typ == BucketInfo
  {
  }

  /** Memory after `memset(a, 0, len)`; a word that is not in the map reads as 0. */
  function Zeroed(words: map<int, int>, a: int, len: int): map<int, int> {
    map w | w in words && !(a <= w < a + len) :: words[w]
  }

  // ----- Safety -----

  ghost predicate Disjoint(b: Block, c: Block) {
    b.addr + Size(b.kind) <= c.addr || c.addr + Size(c.kind) <= b.addr
  }

  /** Two different live blocks never overlap. */
  lemma LiveBlocksDisjoint(L: Layout, m: Infos, owner: map<int, Owner>, b: Block, c: Block)
    requires L.Holds(m, owner, L.n) && L.Live(m, owner, b) && L.Live(m, owner, c) && b != c
    ensures Disjoint(b, c)
  {
    hide Layout.Holds, Layout.Live, Disjoint, SliceOf;
    if SliceOf(L.start, b.addr) != SliceOf(L.start, c.addr) {
      LiveInSlice(L, m, owner, b);
      LiveInSlice(L, m, owner, c);
      SlicesApart(L.start, SliceOf(L.start, b.addr), SliceOf(L.start, c.addr), b, c);
    } else {
      SameSliceDisjoint(L, m, owner, b, c);
    }
  }

  lemma LiveInSlice(L: Layout, m: Infos, owner: map<int, Owner>, b: Block)
    requires L.Holds(m, owner, L.n) && L.Live(m, owner, b)
    ensures b.addr + Size(b.kind) <= L.start + SLICE_SIZE * (SliceOf(L.start, b.addr) + 1)
  {
    hide Layout.Holds, Layout.Live, LiveIn, Agrees, HasBit, InfoAddr;
    LiveRecord(L, m, owner, b);
    BlockInSlice(L.start, b);
  }

  lemma SameSliceDisjoint(L: Layout, m: Infos, owner: map<int, Owner>, b: Block, c: Block)
    requires L.Holds(m, owner, L.n) && L.Live(m, owner, b) && L.Live(m, owner, c) && b != c
    requires SliceOf(L.start, b.addr) == SliceOf(L.start, c.addr)
    ensures Disjoint(b, c)
  {
    hide Layout.Holds, Layout.Live, LiveIn, Agrees, HasBit, InfoAddr, SliceOf;
    LiveRecord(L, m, owner, b);
    LiveRecord(L, m, owner, c);
    if b.kind != L1PageTable {
      var a := L.SliceAddr(SliceOf(L.start, b.addr));
      SlotsApart(a, Size(b.kind), (b.addr - a) / Size(b.kind), (c.addr - a) / Size(b.kind));
    }
  }

  lemma SlicesApart(start: int, i: int, j: int, b: Block, c: Block)
    requires i == SliceOf(start, b.addr) && j == SliceOf(start, c.addr) && i != j
    requires b.addr + Size(b.kind) <= start + SLICE_SIZE * (i + 1) && c.addr + Size(c.kind) <= start + SLICE_SIZE * (j + 1)
    ensures Disjoint(b, c)
  {
  }

  lemma SlotsApart(a: int, size: int, i: int, j: int)
    requires size > 0 && i != j
    ensures a + size * i + size <= a + size * j || a + size * j + size <= a + size * i
  {
    if i < j { MulMonotone(i + 1, j, size); } else { MulMonotone(j + 1, i, size); }
  }

  /** An aligned block lies in one slice. */
  lemma BlockInSlice(start: int, b: Block)
    requires (b.addr - start) % SLICE_SIZE % Size(b.kind) == 0
    ensures b.addr + Size(b.kind) <= start + SLICE_SIZE * (SliceOf(start, b.addr) + 1)
  {
  }

  /** A live block is inside the managed region, and clear of every slice holding records and every reserved slice. */
  lemma LiveBlocksUsable(L: Layout, m: Infos, owner: map<int, Owner>, b: Block)
    requires L.Holds(m, owner, L.n) && L.Live(m, owner, b)
    ensures L.Usable(b)
  {
    hide Layout.Live, LiveIn, Agrees, HasBit, InfoAddr;
    LiveRecord(L, m, owner, b);
    BlockInSlice(L.start, b);
    var i := SliceOf(L.start, b.addr);
    assert L.Describes(m, i);
    forall k | 0 <= k < |L.bucket|
      ensures b.addr + Size(b.kind) <= L.SliceAddr(L.bucket[k]) || L.SliceAddr(L.bucket[k] + 1) <= b.addr
    {
      assert m[L.At(L.bucket[k])].typ == BucketInfo;
      OtherSlice(L, i, L.bucket[k], b);
    }
    forall j | 0 < j < L.n && L.reserved(L.SliceAddr(j))
      ensures b.addr + Size(b.kind) <= L.SliceAddr(j) || L.SliceAddr(j + 1) <= b.addr
    {
      assert L.Describes(m, j);
      OtherSlice(L, i, j, b);
    }
  }

  lemma OtherSlice(L: Layout, i: int, j: int, b: Block)
    requires L.SliceAddr(i) <= b.addr && b.addr + Size(b.kind) <= L.SliceAddr(i + 1) && i != j
    ensures b.addr + Size(b.kind) <= L.SliceAddr(j) || L.SliceAddr(j + 1) <= b.addr
  {
  }

  /** In a region whose every usable slice can be looked up, so can every live block. */
  lemma LiveFindable(L: Layout, m: Infos, owner: map<int, Owner>, b: Block)
    requires L.Holds(m, owner, L.n) && L.Live(m, owner, b) && L.AllFindable()
    ensures L.Findable(b.addr)
  {
  }

  /** Every record is on exactly one of the four lists, and its type and bits fit that list. */
  lemma OneListEach(L: Layout, m: Infos, heads: PerList<int>, lists: PerList<seq<int>>, owner: map<int, Owner>, j: nat, o: Owner)
    requires L.Holds(m, owner, L.n) && Lists(m, heads, lists, owner) && j < L.n
    ensures L.At(j) in owner && (L.At(j) in lists.Of(o) <==> o == owner[L.At(j)])
    ensures L.At(j) in lists.Of(o) ==> Agrees(o, m[L.At(j)])
  {
    assert L.Describes(m, j) && ListOk(m, heads, lists, owner, o);
  }

  /** The lookup theorem: in every state of a run, for every pointer into a slice, the address computed is the one
      record that describes the slice, exactly when the region leaves the expected slice usable. */
  lemma LookupCorrect(L: Layout, m: Infos, owner: map<int, Owner>, j: nat, p: int)
    requires L.Holds(m, owner, L.n) && j < L.n && L.SliceAddr(j) <= p < L.SliceAddr(j) + SLICE_SIZE
    ensures L.At(j) in m && (forall x :: x in m ==> (m[x].slice == L.SliceAddr(j) <==> x == L.At(j)))
    ensures LookupAddr(L.start, p) == L.At(j) <==> L.Findable(p)
  {
    hide Agrees, InfoAddr, LookupAddr;
    assert L.Describes(m, j);
    LookupExactWhen(L.start, L.bucket, j, p);
    assert SliceOf(L.start, p) == j;
    forall x | x in m
      ensures m[x].slice == L.SliceAddr(j) <==> x == L.At(j)
    {
      assert L.IsRecord(m, x, L.n);
      SliceOfSlice(L, j);
    }
  }

  /** When the reserved region is a tail of managed memory, every usable slice can be looked up. */
  lemma ReservedTailFindable(L: Layout)
    requires forall i, j :: 0 <= i <= j < L.n && L.reserved(L.SliceAddr(i)) ==> L.reserved(L.SliceAddr(j))
    ensures L.AllFindable()
  {
  }

  lemma PutBack(owner: map<int, Owner>, x: int, o: Owner)
    ensures (owner - {x})[x := o] == owner[x := o]
  {
  }

  // ----- The manager -----

  class Manager {
    const start: int
    const n: nat  // number of slices between start and end
    const reserved: int -> bool  // address_in_reserved_region

    var infos: Infos
    var heads: PerList<int>
    /** Contents of the words handed out. */
    var words: map<int, int>

    ghost var bucket: seq<nat>  // the slice holding each bucket's records
    ghost var owner: map<int, Owner>  // the list each record is on
    ghost var lists: PerList<seq<int>>  // the records on each list, in order

    ghost function L(): Layout
      reads this
    {
      Layout(start, n, reserved, bucket)
    }

    ghost predicate Valid()
      reads this
    {
      L().Region() && L().Holds(infos, owner, n) && Lists(infos, heads, lists, owner)
    }

    ghost predicate Live(b: Block)
      requires Valid()
      reads this
    {
      L().Live(infos, owner, b)
    }

    /** `push_to_ll`: the record must be on no list and have a NULL `prev`. */
    method PushToList(o: Owner, entry: int)
      requires Lists(infos, heads, lists, owner)
      requires entry in infos && entry != NULL && entry !in owner && infos[entry].prev == NULL
      modifies this`infos, this`heads, this`lists, this`owner
      ensures Lists(infos, heads, lists, owner) && Relinked(old(infos), infos)
      ensures owner == old(owner)[entry := o]
      ensures lists == old(lists).With(o, [entry] + old(lists.Of(o)))
    {
      PushLists(infos, heads, lists, owner, o, entry);
      var head := heads.Of(o);
      if head != NULL {
        infos := infos[head := infos[head].(prev := entry)];
      }
      infos := infos[entry := infos[entry].(next := head)];
      heads := heads.With(o, entry);
      lists, owner := lists.With(o, [entry] + lists.Of(o)), owner[entry := o];
    }

    /** `pop_from_ll` on a non-empty list. */
    method PopFromList(o: Owner) returns (top: int)
      requires Lists(infos, heads, lists, owner) && heads.Of(o) != NULL
      modifies this`infos, this`heads, this`lists, this`owner
      ensures Lists(infos, heads, lists, owner) && Relinked(old(infos), infos)
      ensures top == old(heads.Of(o)) && top in old(owner) && old(owner)[top] == o
      ensures owner == old(owner) - {top} && top in infos && infos[top].prev == NULL
      ensures old(lists.Of(o)) == [top] + lists.Of(o) && lists == old(lists).With(o, lists.Of(o))
    {
      PopLists(infos, heads, lists, owner, o);
      top := heads.Of(o);
      var head := infos[top].next;
      if head != NULL {
        infos := infos[head := infos[head].(prev := NULL)];
      }
      infos := infos[top := infos[top].(next := NULL, prev := NULL)];
      heads := heads.With(o, head);
      lists, owner := lists.With(o, lists.Of(o)[1..]), owner - {top};
    }

    /** `remove_element_ll`, told the head of the list the record is really on. */
    method RemoveFromList(o: Owner, entry: int)
      requires Lists(infos, heads, lists, owner) && entry in owner && owner[entry] == o
      modifies this`infos, this`heads, this`lists, this`owner
      ensures Lists(infos, heads, lists, owner) && Relinked(old(infos), infos)
      ensures owner == old(owner) - {entry} && entry != NULL && entry in infos && infos[entry].prev == NULL
    {
      assert ListOk(infos, heads, lists, owner, o);
      ghost var s := lists.Of(o);
      ghost var k :| 0 <= k < |s| && s[k] == entry;
      RemoveLists(infos, heads, lists, owner, entry, k);
      var e := infos[entry];
      if e.next != NULL {
        infos := infos[e.next := infos[e.next].(prev := e.prev)];
      }
      if e.prev != NULL {
        infos := infos[e.prev := infos[e.prev].(next := e.next)];
      } else {
        heads := heads.With(o, e.next);
      }
      infos := infos[entry := infos[entry].(next := NULL, prev := NULL)];
      assert infos == Remove(old(infos), entry);
      assert heads == old(heads.With(o, HeadAfterRemove(infos, heads.Of(o), entry)));
      lists, owner := lists.With(o, s[..k] + s[k + 1..]), owner - {entry};
    }

    // ----- Operations -----

    /** One round of the `pmm_init` loop: the record of slice `j`, at address `at`. */
    method IndexSlice(j: nat, at: int)
      requires L().Region() && 1 <= j < n && |bucket| == j / INFOS_PER_SLICE + 1 && at == L().At(j)
      requires L().Holds(infos, owner, j) && Lists(infos, heads, lists, owner) && Untouched(infos, owner)
      modifies this`infos, this`heads, this`lists, this`owner
      ensures L().Holds(infos, owner, j + 1) && Lists(infos, heads, lists, owner) && Untouched(infos, owner)
      ensures lists.unused == (if reserved(start + SLICE_SIZE * j) then [] else [at]) + old(lists.unused)
      ensures at in infos && infos[at].slice == start + SLICE_SIZE * j
    {
      hide Layout.Holds, Lists, Relinked;
      RecordIsNew(L(), infos, owner, j);
      RecordAddress(L(), infos, owner, j);
      var r := reserved(start + SLICE_SIZE * j);
      var e := ZERO_INFO.(slice := start + SLICE_SIZE * j, reserved := r);
      NewRecordLists(infos, heads, lists, owner, at, e);
      infos := infos[at := e];
      var o := if r then Allocated else Unused;
      PushToList(o, at);
      AddRecord(L(), old(infos), old(owner), j, e, o, infos);
      UntouchedRecord(old(infos), old(owner), at, e, o, infos);
    }

    /** `pmm_new_sliceinfo_slice`, once the records of slices 0..upto fill their buckets. */
    method NewSliceInfoSlice(ghost upto: nat) returns (slice: int)
      requires L().Holds(infos, owner, upto) && Lists(infos, heads, lists, owner) && Untouched(infos, owner)
      requires |bucket| * INFOS_PER_SLICE == upto && lists.unused != []
      requires !reserved(start + SLICE_SIZE * (upto - 1)) ==> lists.unused[0] == L().At(upto - 1)
      modifies this`infos, this`heads, this`lists, this`owner, this`bucket
      ensures L().Holds(infos, owner, upto) && Lists(infos, heads, lists, owner) && Untouched(infos, owner)
      ensures |bucket| == |old(bucket)| + 1 && slice == start + SLICE_SIZE * bucket[|bucket| - 1]
      ensures lists.unused == old(lists.unused)[1..]
    {
      hide Layout.Holds, Lists, Relinked, OnlyRecord, Agrees;
      HeadOf(infos, heads, lists, owner, Unused);
      UnusedRecord(L(), infos, owner, heads.unused, upto);
      var x := PopFromList(Unused);
      ghost var popped := infos;
      var e := infos[x].(typ := BucketInfo, filled := 0);
      RewriteLists(infos, heads, lists, owner, x, e);
      infos := infos[x := e];
      ghost var before := infos;
      PushToList(Allocated, x);
      slice := infos[x].slice;
      BucketOnly(old(infos), popped, before, infos, x);
      assert owner == old(owner)[x := Allocated];
      AddBucket(L(), old(infos), old(owner), upto, x, infos);
      UntouchedBucket(old(infos), old(owner), infos, x);
      bucket := bucket + [SliceOf(start, slice)];
    }

    /** Slices 0..j are indexed, nothing is handed out, and the next record goes to entry `infoIndex` of `currentSlice`. */
    ghost predicate IndexedUpTo(j: nat, infoIndex: nat, currentSlice: int)
      reads this
    {
      && |bucket| == j / INFOS_PER_SLICE + 1
      && infoIndex == j % INFOS_PER_SLICE && currentSlice == start + SLICE_SIZE * bucket[j / INFOS_PER_SLICE]
      && L().Holds(infos, owner, j) && Lists(infos, heads, lists, owner) && Untouched(infos, owner)
      && |lists.unused| == SpareSlices(reserved, start, j - 1)
    }

    /** One round of the `pmm_init` loop. */
    method IndexNext(j: nat, infoIndex: nat, currentSlice: int) returns (infoIndex': nat, currentSlice': int)
      requires L().Region() && 1 <= j < n && IndexedUpTo(j, infoIndex, currentSlice)
      requires SpareSlices(reserved, start, j) >= 0
      modifies this`infos, this`heads, this`lists, this`owner, this`bucket
      ensures IndexedUpTo(j + 1, infoIndex', currentSlice')
    {
      hide Layout.Holds, Lists, Untouched;
      IndexSlice(j, currentSlice + INFO_SIZE * infoIndex);
      infoIndex', currentSlice' := infoIndex + 1, currentSlice;
      if infoIndex' >= INFOS_PER_SLICE {
        currentSlice' := NewSliceInfoSlice(j + 1);
        infoIndex' := 0;
      }
    }

    /** The `pmm_init` loop. */
    method IndexAll()
      requires L().Region() && EnoughSpares(reserved, start, n) && IndexedUpTo(1, 1, start)
      modifies this`infos, this`heads, this`lists, this`owner, this`bucket
      ensures exists infoIndex, currentSlice :: IndexedUpTo(n, infoIndex, currentSlice)
    {
      hide Layout.Holds, Lists, Untouched, SpareSlices;
      var infoIndex, currentSlice := 1, start;
      for j := 1 to n
        invariant IndexedUpTo(j, infoIndex, currentSlice)
      {
        assert SpareSlices(reserved, start, j) >= 0;
        infoIndex, currentSlice := IndexNext(j, infoIndex, currentSlice);
      }
    }

    /** `pmm_init`: indexes every slice after the first, which holds the first bucket's records. Memory is zero. */
    constructor (start: int, n: nat, reserved: int -> bool)
      requires Layout(start, n, reserved, []).Region() && EnoughSpares(reserved, start, n)
      ensures this.start == start && this.n == n && this.reserved == reserved
      ensures Valid() && |lists.unused| == SpareSlices(reserved, start, n - 1)
      ensures forall b :: !Live(b)
    {
      this.start, this.n, this.reserved := start, n, reserved;
      infos := map[start := Info(BucketInfo, 1, false, NULL, NULL, start)];
      heads := PerList(NULL, start, NULL, NULL);
      words := map[];
      bucket, owner, lists := [0], map[start := Allocated], PerList([], [start], [], []);
      new;
      hide Layout.Holds, Lists, Layout.Live, Untouched;
      FirstRecord(L(), infos, owner, heads, lists);
      IndexAll();
      forall b
        ensures !L().Live(infos, owner, b)
      {
        UntouchedIsDead(L(), infos, owner, b);
      }
    }

    /** `pmm_get_sliceinfo_for_slice`: the record of the slice `p` points into, unless it is reserved. */
    method GetSliceInfo(p: int) returns (r: Option<int>)
      requires Valid() && start <= p < start + SLICE_SIZE * n && L().Findable(p)
      ensures var j := SliceOf(start, p);
        L().Describes(infos, j) && r == if infos[L().At(j)].reserved then None else Some(L().At(j))
    {
      ghost var j := SliceOf(start, p);
      LookupExactWhen(start, bucket, j, p);
      assert L().Describes(infos, j);
      var info := LookupAddr(start, p);
      if infos[info].reserved {
        return None;
      }
      return Some(info);
    }

    /** `pmm_allocate_l1_pagetable` */
    method AllocateL1() returns (r: int)
      requires Valid()
      modifies this
      ensures Valid() && bucket == old(bucket)
      ensures r == NULL <==> old(lists.unused) == []
      ensures r == NULL ==> infos == old(infos) && owner == old(owner) && lists == old(lists) && words == old(words)
      ensures r != NULL ==>
        && !old(Live(Block(L1PageTable, r))) && words == Zeroed(old(words), r, SLICE_SIZE)
        && forall b :: Live(b) <==> old(Live(b)) || b == Block(L1PageTable, r)
    {
      hide Layout.Holds, Layout.Live, Lists, ListOk, Zeroed;
      HeadOf(infos, heads, lists, owner, Unused);
      if heads.unused == NULL {
        return NULL;
      }
      AgreesAt(L(), infos, owner, heads.unused);
      var x := PopFromList(Unused);
      RewriteLists(infos, heads, lists, owner, x, infos[x].(typ := L1PageTable));
      infos := infos[x := infos[x].(typ := L1PageTable)];
      PushToList(Allocated, x);
      r := infos[x].slice;
      words := Zeroed(words, r, SLICE_SIZE);
      assert owner == old(owner)[x := Allocated];
      ClaimWhole(L(), old(infos), old(owner), infos, x, Block(L1PageTable, r));
      forall b
        ensures L().Live(infos, owner, b) <==> old(Live(b)) || b == Block(L1PageTable, r)
      {
        ClaimWhole(L(), old(infos), old(owner), infos, x, b);
      }
    }

    /** Moves the first partly filled slice to the allocated list if it has become full. */
    method RetireIfFull(kind: MemoryType) returns (ghost o: Owner)
      requires Lists(infos, heads, lists, owner) && heads.Of(PartialList(kind)) in infos && heads.Of(PartialList(kind)) != NULL
      requires owner.Keys == infos.Keys
      modifies this`infos, this`heads, this`lists, this`owner
      ensures Lists(infos, heads, lists, owner) && lists.unused == old(lists.unused) && Relinked(old(infos), infos)
      ensures forall o' :: o' != Allocated && o' != PartialList(kind) ==> lists.Of(o') == old(lists.Of(o'))
      ensures var x := old(heads.Of(PartialList(kind)));
        && owner == old(owner)[x := o]
        && o == if old(infos)[x].filled == Full(kind) then Allocated else PartialList(kind)
    {
      hide Lists, ListOk, Chain;
      o := PartialList(kind);
      var x := heads.Of(PartialList(kind));
      HeadOf(infos, heads, lists, owner, PartialList(kind));
      if infos[x].filled == Full(kind) {
        var _ := PopFromList(PartialList(kind));
        ghost var before := infos;
        PushToList(Allocated, x);
        o := Allocated;
        RelinkedTwice(old(infos), before, infos);
      }
      assert owner == old(owner)[x := o];
    }

    /** Marks the next free part of the first partly filled slice, and retires the slice once it is full. */
    method TakeFromPartial(kind: MemoryType) returns (x: int, i: nat, ghost o: Owner)
      requires (kind == L2PageTable || kind == Page) && Valid() && heads.Of(PartialList(kind)) != NULL
      modifies this`infos, this`heads, this`lists, this`owner
      ensures Lists(infos, heads, lists, owner) && lists.unused == old(lists.unused)
      ensures forall o' :: o' != Allocated && o' != PartialList(kind) ==> lists.Of(o') == old(lists.Of(o'))
      ensures x in old(owner) && old(owner)[x] == PartialList(kind) && owner == old(owner)[x := o]
      ensures x in infos && infos[x].slice == old(infos)[x].slice
      ensures OnlyRecord(old(infos), infos, x) && Agrees(o, infos[x])
      ensures infos[x].typ == old(infos)[x].typ == kind && !old(infos)[x].reserved
      ensures i < PerSlice(kind) && !HasBit(old(infos)[x].filled, i)
      ensures infos[x].filled == Or(old(infos)[x].filled, i)
    {
      hide Layout.Holds, Layout.Live, Lists, ListOk, HasBit, Chain, Mask, Or, OnlyRecord, Agrees, Relinked;
      o := PartialList(kind);
      HeadOf(infos, heads, lists, owner, o);
      x := heads.Of(PartialList(kind));
      AgreesAt(L(), infos, owner, x);
      i := NextFree(kind, infos[x]);
      var e := infos[x].(filled := Or(infos[x].filled, i));
      RewriteLists(infos, heads, lists, owner, x, e);
      RewrittenOnly(infos, x, e);
      infos := infos[x := e];
      assert owner == old(owner)[x := o];
      ghost var before := infos;
      o := RetireIfFull(kind);
      RelinkedOnly(old(infos), before, infos, x, o);
    }

    /** Starts a fresh slice for blocks of `kind`, its first block taken. */
    method TakeFromUnused(kind: MemoryType) returns (x: int)
      requires (kind == L2PageTable || kind == Page) && Valid() && heads.unused != NULL
      modifies this`infos, this`heads, this`lists, this`owner
      ensures Lists(infos, heads, lists, owner) && |lists.unused| == |old(lists.unused)| - 1
      ensures forall o' :: o' != Unused && o' != PartialList(kind) ==> lists.Of(o') == old(lists.Of(o'))
      ensures x in old(owner) && old(owner)[x] == Unused && owner == old(owner)[x := PartialList(kind)]
      ensures x in infos && infos[x].slice == old(infos)[x].slice
      ensures OnlyRecord(old(infos), infos, x) && Agrees(PartialList(kind), infos[x])
      ensures infos[x].typ == kind && old(infos)[x].filled == 0 && infos[x].filled == 1 && !old(infos)[x].reserved
    {
      hide Layout.Holds, Layout.Live, Lists, HasBit, Chain, Mask, Or, OnlyRecord;
      HeadOf(infos, heads, lists, owner, Unused);
      AgreesAt(L(), infos, owner, heads.unused);
      x := PopFromList(Unused);
      RewriteLists(infos, heads, lists, owner, x, infos[x].(typ := kind, filled := 1));
      infos := infos[x := infos[x].(typ := kind, filled := 1)];
      ghost var before := infos;
      PushToList(PartialList(kind), x);
      assert owner == old(owner)[x := PartialList(kind)];
      OnlyThat(old(infos), before, infos, x);
      assert SameBody(before[x], infos[x]);
    }

    /** The common body of `pmm_allocate_l2_pagetable` and `pmm_allocate_page`. */
    method AllocatePart(kind: MemoryType) returns (r: int)
      requires kind == L2PageTable || kind == Page
      requires Valid() && (lists.Of(PartialList(kind)) != [] || lists.unused != [])
      modifies this
      ensures Valid() && bucket == old(bucket)
      ensures !old(Live(Block(kind, r))) && words == Zeroed(old(words), r, Size(kind))
      ensures forall b :: Live(b) <==> old(Live(b)) || b == Block(kind, r)
      ensures |lists.unused| == old(|lists.unused|) - (if old(lists.Of(PartialList(kind))) == [] then 1 else 0)
      ensures forall o :: o != Unused && o != Allocated && o != PartialList(kind) ==> lists.Of(o) == old(lists.Of(o))
    {
      hide Layout.Holds, Layout.Live, Lists, ListOk, HasBit, Agrees, Chain, Mask, Or, OnlyRecord, Zeroed;
      HeadOf(infos, heads, lists, owner, PartialList(kind));
      HeadOf(infos, heads, lists, owner, Unused);
      var x, i;
      ghost var o := PartialList(kind);
      if heads.Of(PartialList(kind)) != NULL {
        x, i, o := TakeFromPartial(kind);
      } else {
        x := TakeFromUnused(kind);
        i := 0;
        BitZero();
      }
      r := infos[x].slice + Size(kind) * i;
      words := Zeroed(words, r, Size(kind));
      PartClaimed(L(), old(infos), old(owner), infos, x, o, kind, i);
    }

    /** `pmm_free_l1_pagetable` */
    method FreeL1(p: int)
      requires Valid() && (p != NULL ==> Live(Block(L1PageTable, p)) && L().Findable(p))
      modifies this`infos, this`heads, this`lists, this`owner
      ensures Valid()
      ensures forall b :: Live(b) <==> old(Live(b)) && b != Block(L1PageTable, p)
    {
      hide Layout.Holds, Layout.Live, Lists, ListOk, Agrees;
      if p == NULL {
        NullIsDead(L(), infos, owner);
        return;
      }
      LiveRecord(L(), infos, owner, Block(L1PageTable, p));
      var r := GetSliceInfo(p);
      var x := r.value;
      RemoveFromList(Allocated, x);
      ghost var before := infos;
      PushToList(Unused, x);
      RelinkedTwice(old(infos), before, infos);
      assert SameBody(old(infos)[x], infos[x]);
      assert owner == old(owner)[x := Unused];
      WholeReleased(L(), old(infos), old(owner), infos, x);
    }

    /** The common body of `pmm_free_page` and `pmm_free_l2_pagetable`. */
    method FreePart(kind: MemoryType, p: int)
      requires kind == L2PageTable || kind == Page
      requires Valid() && Live(Block(kind, p)) && L().Findable(p)
      modifies this`infos, this`heads, this`lists, this`owner
      ensures Valid()
      ensures forall b :: Live(b) <==> old(Live(b)) && b != Block(kind, p)
    {
      hide Layout.Holds, Layout.Live, Lists, ListOk, Agrees, HasBit, AndNot, Relinked, OnlyRecord;
      LiveRecord(L(), infos, owner, Block(kind, p));
      var r := GetSliceInfo(p);
      var x := r.value;
      var i := (p - infos[x].slice) / Size(kind);
      AfterFree(kind, infos[x], owner[x], i);
      RemoveFromList(if infos[x].filled == Full(kind) then Allocated else PartialList(kind), x);
      ghost var removed := infos;
      RelinkedAt(old(infos), infos, x);
      var e := infos[x].(filled := AndNot(infos[x].filled, i));
      RewriteLists(infos, heads, lists, owner, x, e);
      infos := infos[x := e];
      ghost var before := infos;
      var o := if e.filled == 0 then Unused else PartialList(kind);
      PushToList(o, x);
      PutBack(old(owner), x, o);
      RefilledOnly(old(infos), removed, before, infos, x, e.filled, o);
      PartReleased(L(), old(infos), old(owner), infos, x, o, kind, i);
    }

    /** `pmm_allocate_l2_pagetable` */
    method AllocateL2() returns (r: int)
      requires Valid() && (lists.l2Partial != [] || lists.unused != [])
      modifies this
      ensures Valid() && bucket == old(bucket)
      ensures !old(Live(Block(L2PageTable, r))) && words == Zeroed(old(words), r, 1024)
      ensures forall b :: Live(b) <==> old(Live(b)) || b == Block(L2PageTable, r)
      ensures |lists.unused| == |old(lists.unused)| - (if old(lists.l2Partial) == [] then 1 else 0)
      ensures lists.pagePartial == old(lists.pagePartial)
    {
      hide Layout.Holds, Lists, Layout.Live, Zeroed;
      r := AllocatePart(L2PageTable);
      assert lists.pagePartial == lists.Of(PagePartial);
    }

    /** `pmm_allocate_page` */
    method AllocatePage() returns (r: int)
      requires Valid() && (lists.pagePartial != [] || lists.unused != [])
      modifies this
      ensures Valid() && bucket == old(bucket)
      ensures !old(Live(Block(Page, r))) && words == Zeroed(old(words), r, 4096)
      ensures forall b :: Live(b) <==> old(Live(b)) || b == Block(Page, r)
      ensures |lists.unused| == |old(lists.unused)| - (if old(lists.pagePartial) == [] then 1 else 0)
    {
      hide Layout.Holds, Lists, Layout.Live, Zeroed;
      r := AllocatePart(Page);
    }

    /** Frees a block of any kind with the function for that kind. */
    method Free(b: Block)
      requires Valid() && Live(b) && L().Findable(b.addr)
      modifies this`infos, this`heads, this`lists, this`owner
      ensures Valid()
      ensures forall c :: Live(c) <==> old(Live(c)) && c != b
    {
      hide Layout.Holds, Lists, Layout.Live;
      LiveRecord(L(), infos, owner, b);
      if b.kind == L1PageTable {
        FreeL1(b.addr);
      } else {
        FreePart(b.kind, b.addr);
      }
    }

    /** Serves one request, if a slice can. */
    method Serve(r: Request, held: set<Block>) returns (left: set<Block>, short: bool, e: Event)
      requires Valid() && L().AllFindable() && (forall b :: Live(b) <==> b in held) && (r.Allocate? ==> r.kind != BucketInfo)
      modifies this
      ensures Valid() && bucket == old(bucket) && forall b :: Live(b) <==> b in left
      ensures !short ==> Allowed(r, held, e) && left == Apply(held, e)
      ensures short ==> left == held && r.Allocate? && NoSlice(r.kind)
    {
      hide Layout.Holds, Lists, Layout.Live, Zeroed, Layout.AllFindable;
      left, short, e := held, false, Refused;
      match r
      case Allocate(kind) =>
        HeadOf(infos, heads, lists, owner, Unused);
        HeadOf(infos, heads, lists, owner, PartialList(kind));
        if kind == L1PageTable {
          var p := AllocateL1();
          short := p == NULL;
          if short { return; }
          e := Got(Block(kind, p));
        } else {
          short := heads.Of(PartialList(kind)) == NULL && heads.unused == NULL;
          if short { return; }
          var p := AllocatePart(kind);
          e := Got(Block(kind, p));
        }
        left := held + {e.b};
      case Release(b) =>
        if b in held {
          LiveFindable(L(), infos, owner, b);
          Free(b);
          left, e := held - {b}, Freed(b);
        }
    }

    /** No slice can serve an allocation of this kind. */
    ghost predicate NoSlice(kind: MemoryType)
      reads this
    {
      lists.unused == [] && (kind != L1PageTable ==> lists.Of(PartialList(kind)) == [])
    }

    /** Every run of allocations and frees, up to the first allocation that no slice can serve: each request is answered, what is live is
        what the answers say is held, and those blocks are pairwise disjoint, inside the managed region, and clear of records and
        reserved slices. */
    method Run(requests: seq<Request>) returns (held: set<Block>, short: bool, events: seq<Event>)
      requires Valid() && (forall b :: !Live(b)) && L().AllFindable()
      requires forall i :: 0 <= i < |requests| && requests[i].Allocate? ==> requests[i].kind != BucketInfo
      modifies this
      ensures Valid() && bucket == old(bucket)
      ensures Answers(requests, events) && held == HeldAfter(events) && forall b :: Live(b) <==> b in held
      ensures !short ==> |events| == |requests|
      ensures short ==> |events| < |requests| && requests[|events|].Allocate? && NoSlice(requests[|events|].kind)
      ensures forall b, c :: b in held && c in held && b != c ==> Disjoint(b, c)
      ensures forall b :: b in held ==> L().Usable(b)
    {
      hide Layout.Holds, Lists, Layout.Live, Zeroed, Layout.Usable, Layout.AllFindable, Allowed, Apply, HeldAfter, Answers, NoSlice;
      held, short, events := {}, false, [];
      NothingAnswered(requests);
      for i := 0 to |requests|
        invariant Valid() && bucket == old(bucket) && (forall b :: Live(b) <==> b in held) && !short
        invariant |events| == i && Answers(requests, events) && held == HeldAfter(events)
      {
        var e;
        held, short, e := Serve(requests[i], held);
        if short { break; }
        AnswersMore(requests, events, e);
        events := events + [e];
      }
      forall b, c | b in held && c in held && b != c
        ensures Disjoint(b, c)
      {
        LiveBlocksDisjoint(L(), infos, owner, b, c);
      }
      forall b | b in held
        ensures L().Usable(b)
      {
        LiveBlocksUsable(L(), infos, owner, b);
      }
    }
  }

  // ----- Runs -----

  datatype Request = Allocate(kind: MemoryType) | Release(b: Block)

  /** What a request did. Only blocks that are held can be freed. */
  datatype Event = Got(b: Block) | Freed(b: Block) | Refused

  ghost function Apply(held: set<Block>, e: Event): set<Block> {
    match e
    case Got(b) => held + {b}
    case Freed(b) => held - {b}
    case Refused => held
  }

  ghost function HeldAfter(events: seq<Event>): set<Block> {
    if events == [] then {} else Apply(HeldAfter(events[..|events| - 1]), events[|events| - 1])
  }

  /** The answer to a request when `held` are held: an allocation gives a new block of its kind. */
  ghost predicate Allowed(r: Request, held: set<Block>, e: Event) {
    match r
    case Allocate(kind) => e.Got? && e.b.kind == kind && e.b !in held
    case Release(b) => e == if b in held then Freed(b) else Refused
  }

  ghost predicate Answers(requests: seq<Request>, events: seq<Event>) {
    |events| <= |requests| && forall i :: 0 <= i < |events| ==> Allowed(requests[i], HeldAfter(events[..i]), events[i])
  }

  lemma NothingAnswered(requests: seq<Request>)
    ensures Answers(requests, []) && HeldAfter([]) == {}
  {
  }

  lemma HeldMore(events: seq<Event>, e: Event)
    ensures HeldAfter(events + [e]) == Apply(HeldAfter(events), e)
  {
    hide Apply;
    assert (events + [e])[..|events|] == events;
  }

  lemma AnswersMore(requests: seq<Request>, events: seq<Event>, e: Event)
    requires Answers(requests, events) && |events| < |requests| && Allowed(requests[|events|], HeldAfter(events), e)
    ensures Answers(requests, events + [e]) && HeldAfter(events + [e]) == Apply(HeldAfter(events), e)
  {
    HeldMore(events, e);
    hide Allowed, Apply, HeldAfter;
    var more := events + [e];
    forall i | 0 <= i < |more| ensures Allowed(requests[i], HeldAfter(more[..i]), more[i]) {
      assert more[..i] == events[..i];
      if i == |events| { assert events[..i] == events; }
    }
  }
}
