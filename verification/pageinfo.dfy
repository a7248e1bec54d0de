/** Physical page accounting of `kernel.c`: one `pageinfo` entry per physical
    page, `assign_physical_page` and `pageinfo_init`. */
module PhysicalPages {
  import opened X86
  import opened Layout

  /** `physical_pageinfo`: who owns a page and how often it is referenced. */
  datatype PageInfo = PageInfo(owner: I8, refcount: I8)

  /** `pageowner_t`; a non-negative owner is a process ID. */
  const PO_FREE: I8 := 0
  const PO_RESERVED: I8 := -1
  const PO_KERNEL: I8 := -2

  /** The `pageinfo` array has one entry per physical page. */
  predicate WellSized(pi: seq<PageInfo>)
  {
    |pi| == NPAGES
  }

  /** The page-number of an address inside physical memory. */
  function PageOf(addr: U64): (pn: nat)
    ensures addr < MEMSIZE_PHYSICAL ==> pn < NPAGES
  {
    DivModParts(addr, PAGESIZE);
    addr / PAGESIZE
  }

  /** The conditions under which `assign_physical_page` refuses `addr`. */
  predicate AssignRefused(pi: seq<PageInfo>, addr: U64)
    requires WellSized(pi)
  {
    addr % PAGESIZE != 0 || addr >= MEMSIZE_PHYSICAL || pi[PageOf(addr)].refcount != 0
  }

  /** `assign_physical_page(addr, owner)`: 0 and the page now referenced once
      by `owner`, or -1 and nothing changed when `addr` is unaligned, outside
      physical memory or already referenced. */
  function AssignPhysicalPage(pi: seq<PageInfo>, addr: U64, owner: I8): (r: (int, seq<PageInfo>))
    requires WellSized(pi)
    ensures WellSized(r.1)
    ensures r.0 == -1 <==> AssignRefused(pi, addr)
    ensures r.0 == 0 || r.0 == -1
    ensures r.0 == -1 ==> r.1 == pi
    ensures r.0 == 0 ==> (r.1[PageOf(addr)] == PageInfo(owner, 1)
      && forall pn | 0 <= pn < NPAGES && pn != PageOf(addr) :: r.1[pn] == pi[pn])
  {
    if addr % 4096 != 0 || addr >= MEMSIZE_PHYSICAL || pi[addr / 4096].refcount != 0 then (-1, pi)
    else (0, pi[addr / 4096 := PageInfo(owner, 1)])
  }

  /** No page is handed out twice: once an assignment of `addr` succeeded, a
      second one fails, whoever asks. */
  lemma NoDoubleAssign(pi: seq<PageInfo>, addr: U64, owner: I8, other: I8)
    requires WellSized(pi)
    requires AssignPhysicalPage(pi, addr, owner).0 == 0
    ensures var pi' := AssignPhysicalPage(pi, addr, owner).1;
      AssignPhysicalPage(pi', addr, other) == (-1, pi')
  {
  }

  /** Assignments of two different pages do not interfere: both orders
      succeed or fail alike and leave the same table. */
  lemma AssignCommutes(pi: seq<PageInfo>, a: U64, b: U64, owner: I8, other: I8)
    requires WellSized(pi)
    requires PageOf(a) != PageOf(b)
    ensures var (ra, pa) := AssignPhysicalPage(pi, a, owner);
            var (rb, pb) := AssignPhysicalPage(pi, b, other);
            AssignPhysicalPage(pa, b, other).0 == rb && AssignPhysicalPage(pb, a, owner).0 == ra
            && AssignPhysicalPage(pa, b, other).1 == AssignPhysicalPage(pb, a, owner).1
  {
  }

  // ---------------------------------------------------------------- pageinfo_init

  /** The owner `pageinfo_init` gives the page at `addr`: reserved memory
      first, then the kernel's image `[KERNEL_START_ADDR, end)` and its stack
      page, and free otherwise. `reserved` is `physical_memory_isreserved`,
      `end` the linker's end of the kernel image. */
  function InitialOwner(reserved: U64 -> bool, end: U64, addr: U64): I8
  {
    if reserved(addr) then PO_RESERVED
    else if (KERNEL_START_ADDR <= addr < end) || addr == KERNEL_STACK_TOP - PAGESIZE then PO_KERNEL
    else PO_FREE
  }

  /** The entry `pageinfo_init` writes for the page at `addr`: reserved
      memory is `PO_RESERVED` even inside the kernel's image, the kernel's
      image and stack page `0x7F000` are otherwise `PO_KERNEL`, every other
      page is free, and a page is referenced once exactly when it is not
      free. */
  function InitialInfo(reserved: U64 -> bool, end: U64, addr: U64): (i: PageInfo)
    ensures reserved(addr) ==> i.owner == PO_RESERVED
    ensures !reserved(addr) && (KERNEL_START_ADDR <= addr < end || addr == 0x7F000) ==> i.owner == PO_KERNEL
    ensures i.owner == PO_FREE <==> !reserved(addr) && !(KERNEL_START_ADDR <= addr < end) && addr != 0x7F000
    ensures i.refcount == 1 <==> i.owner != PO_FREE
    ensures i.refcount == 0 <==> i.owner == PO_FREE
  {
    var owner := InitialOwner(reserved, end, addr);
    PageInfo(owner, if owner != PO_FREE then 1 else 0)
  }

  /** `pageinfo_init()`: the loop over every physical page from address 0. */
  method PageinfoInit(reserved: U64 -> bool, end: U64) returns (pi: seq<PageInfo>)
    ensures WellSized(pi)
    ensures forall pn | 0 <= pn < NPAGES :: pi[pn] == InitialInfo(reserved, end, pn * PAGESIZE)
  {
    pi := [];
    var addr: U64 := 0;
    while addr < MEMSIZE_PHYSICAL
      invariant addr % PAGESIZE == 0 && addr <= MEMSIZE_PHYSICAL
      invariant |pi| == addr / PAGESIZE
      invariant forall pn | 0 <= pn < |pi| :: pi[pn] == InitialInfo(reserved, end, pn * PAGESIZE)
      decreases MEMSIZE_PHYSICAL - addr
    {
      var owner: I8;
      if reserved(addr) {
        owner := PO_RESERVED;
      } else if (addr >= KERNEL_START_ADDR && addr < end) || addr == KERNEL_STACK_TOP - PAGESIZE {
        owner := PO_KERNEL;
      } else {
        owner := PO_FREE;
      }
      pi := pi + [PageInfo(owner, if owner != PO_FREE then 1 else 0)];
      addr := addr + PAGESIZE;
    }
  }
}
