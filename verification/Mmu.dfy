/** How the processor reads two-level page tables with subpages disabled: the address that a virtual address comes to, and who may do what
    there. The entry formats and the table of access permissions are those that src/kernel/src/vm/include/vm2.h describes. Memory is seen
    at the kernel's addresses, which are the physical ones plus 2 GiB. */
module Mmu {

  datatype Rights = Rights(kernelReads: bool, kernelWrites: bool, userReads: bool, userWrites: bool, executes: bool, global: bool)

  /** A section is translated by the first-level entry alone, which is not followed here. */
  datatype Translation = Fault | Section | To(physical: int, rights: Rights)

  function Word(words: map<int, int>, a: int): int {
    if a in words then words[a] else 0
  }

  /** AP is bits 4 and 5, APX bit 9, XN bit 0 and nG bit 11 of a small-page entry. */
  function RightsOf(e: int): Rights {
    var ap, apx, xn, ng := e / 16 % 4, e / 512 % 2, e % 2, e / 2048 % 2;
    Rights(ap != 0, ap != 0 && apx == 0, ap >= 2, ap == 3 && apx == 0, xn == 0, ng == 0)
  }

  /** Caching, buffering and sharing, bits 2, 3, 6 to 8 and 10, are all off. */
  predicate Plain(e: int) {
    e / 4 % 2 == 0 && e / 8 % 2 == 0 && e / 64 % 8 == 0 && e / 1024 % 2 == 0
  }

  function Translate(l1: seq<int>, words: map<int, int>, v: int): Translation
    requires |l1| == 4096 && 0 <= v < 0x1_0000_0000
  {
    var first := l1[v / 0x10_0000];
    if first % 4 == 2 then Section
    else if first % 4 != 1 then Fault
    else
      var table := first / 1024 * 1024;
      var second := Word(words, (table + 0x8000_0000) % 0x1_0000_0000 + 4 * (v / 0x1000 % 0x100));
      if second % 4 < 2 then Fault else To(second / 4096 * 4096 + v % 4096, RightsOf(second))
  }
}
