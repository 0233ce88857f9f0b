/** The physical memory manager on the one board the kernel supports (src/kernel/src/common/hardwareinfo.c), and on a region that
    defeats its record lookup. */
module PmmRegions {
  import opened SliceLists
  import opened Pmm

  const VIRTUAL_OFFSET: int := 0x8000_0000
  const PERIPHERALS: int := 0x3f00_0000
  const PERIPHERALS_SIZE: int := 21 * 0x10_0000

  /** `address_in_reserved_region` on a Raspberry Pi 2: a bounded interval. */
  predicate BoardReserved(address: int) {
    var physical := (address - VIRTUAL_OFFSET) % ADDRESS_SPACE;
    PERIPHERALS <= physical < PERIPHERALS + PERIPHERALS_SIZE
  }

  /** The managed region starts in the kernel's half and ends no later than the peripherals do. */
  predicate BoardRegion(start: int, n: nat) {
    VIRTUAL_OFFSET <= start && start % SLICE_SIZE == 0 && start + SLICE_SIZE * n <= VIRTUAL_OFFSET + PERIPHERALS + PERIPHERALS_SIZE
  }

  lemma BoardReservedFrom(address: int)
    requires VIRTUAL_OFFSET <= address < VIRTUAL_OFFSET + PERIPHERALS + PERIPHERALS_SIZE
    ensures BoardReserved(address) <==> address >= VIRTUAL_OFFSET + PERIPHERALS
  {
  }

  /** Every address of the kernel's that is a peripheral's: 21 MiB from 0x3f000000 on, 2 GiB higher. */
  lemma BoardReservedInNumbers(address: int)
    requires 0 <= address < 0x1_0000_0000
    ensures BoardReserved(address) <==> 0xbf00_0000 <= address < 0xc050_0000
  {
  }

  /** Inside the managed region the peripherals are a tail, so the lookup finds the record of every usable slice. */
  lemma BoardFindable(L: Layout)
    requires L.reserved == BoardReserved && BoardRegion(L.start, L.n)
    ensures L.AllFindable()
  {
    forall j | 0 <= j < L.n ensures L.reserved(L.SliceAddr(j)) <==> L.SliceAddr(j) >= VIRTUAL_OFFSET + PERIPHERALS {
      BoardReservedFrom(L.SliceAddr(j));
    }
    ReservedTailFindable(L);
  }

  /** Initialisation succeeds exactly when the slices before the peripherals outnumber the buckets of records. */
  lemma BoardSpares(start: int, n: nat)
    requires BoardRegion(start, n) && n >= 1 && start < VIRTUAL_OFFSET + PERIPHERALS
    ensures var first := (VIRTUAL_OFFSET + PERIPHERALS - start) / SLICE_SIZE;
      EnoughSpares(BoardReserved, start, n) <==> (if first <= n then first else n) - 1 >= n / INFOS_PER_SLICE
  {
    var tail := (VIRTUAL_OFFSET + PERIPHERALS - start) / SLICE_SIZE;
    var first := if tail <= n then tail else n;
    forall j: nat | j < n ensures BoardReserved(start + SLICE_SIZE * j) <==> j >= first {
      BoardReservedFrom(start + SLICE_SIZE * j);
    }
    ReservedTailSpares(BoardReserved, start, first, n);
  }

  /** A Raspberry Pi 2 with 1 GiB and a kernel of 1 MiB: the manager comes up and every usable slice can be looked up, so that every
      run of `Manager.Run` is covered. */
  method Board() returns (pmm: Manager)
    ensures fresh(pmm) && pmm.Valid() && pmm.L().AllFindable() && forall b :: !pmm.Live(b)
    ensures pmm.start == 0x8010_0000 && pmm.start + 8192 * pmm.n == 0xc000_0000 && pmm.reserved == BoardReserved
  {
    hide Layout.Holds, Lists, Layout.Live, Layout.AllFindable, SpareSlices, EnoughSpares;
    BoardSpares(0x8010_0000, 130944);
    pmm := new Manager(0x8010_0000, 130944, BoardReserved);
    BoardFindable(pmm.L());
  }

  // ----- A region that defeats the lookup -----

  lemma {:induction false} OneReservedSpares(reserved: int -> bool, start: int, r: nat, j: nat)
    requires r >= 1 && forall i: nat :: reserved(start + SLICE_SIZE * i) <==> i == r
    ensures SpareSlices(reserved, start, j) == j - (if j >= r then 1 else 0) - (j + 1) / INFOS_PER_SLICE
  {
    if j > 0 { OneReservedSpares(reserved, start, r, j - 1); }
  }

  lemma BucketOf(pmm: Manager, j: nat)
    requires pmm.Valid() && j < pmm.n
    ensures j / INFOS_PER_SLICE < |pmm.bucket|
  {
  }

  /** 1024 slices of which only slice 511 is reserved. Initialisation succeeds, slice 512 is usable, and the lookup of every pointer into
      it gives an address that is not its record's. */
  method LookupMisses(start: int) returns (pmm: Manager)
    requires 0 < start && start % SLICE_SIZE == 0 && start + SLICE_SIZE * 1024 <= ADDRESS_SPACE
    ensures fresh(pmm) && pmm.Valid() && pmm.start == start && pmm.n == 1024
    ensures forall i :: 0 <= i < 1024 ==> (pmm.reserved(start + SLICE_SIZE * i) <==> i == 511)
    ensures forall p :: start + SLICE_SIZE * 512 <= p < start + SLICE_SIZE * 513 ==> LookupAddr(start, p) != pmm.L().At(512)
  {
    hide Layout.Holds, Lists, Layout.Live, SpareSlices, InfoAddr, LookupAddr;
    var reserved := (a: int) => a == start + SLICE_SIZE * 511;
    forall j | 1 <= j < 1024 ensures SpareSlices(reserved, start, j) >= 0 {
      OneReservedSpares(reserved, start, 511, j);
    }
    pmm := new Manager(start, 1024, reserved);
    BucketOf(pmm, 512);
    forall p | start + SLICE_SIZE * 512 <= p < start + SLICE_SIZE * 513 ensures LookupAddr(start, p) != pmm.L().At(512) {
      LookupCorrect(pmm.L(), pmm.infos, pmm.owner, 512, p);
    }
  }
}
