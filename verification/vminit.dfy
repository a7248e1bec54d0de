/** `virtual_memory_init` and `set_pagetable` (vm.c): the kernel's own page
    table, which identity-maps physical memory, and the checks made before a
    page table is loaded into CR3. */
module KernelPageTable {
  import opened Wrappers
  import opened X86
  import opened Layout
  import opened PageTables
  import opened VirtualMemory

  /** `kernel_pagetables[0..5]` lies at `base`: five page-aligned tables, the
      first of which is `kernel_pagetable`. */
  predicate KernelTablesFit(base: U64)
  {
    base % 4096 == 0 && base + 5 * PAGESIZE <= TWO_64
  }

  /** The five tables of the kernel page table. */
  predicate IsKernelTable(base: int, tb: int)
  {
    tb == base || tb == base + 0x1000 || tb == base + 0x2000 || tb == base + 0x3000 || tb == base + 0x4000
  }

  /** The tables after the `memset` to zero and the four link entries:
      table 0 entry 0 names table 1, table 1 entry 0 names table 2, and
      entries 0 and 1 of table 2 name tables 3 and 4, all with P, W and U. */
  function LinkedTables(t: Tables, base: U64): (r: Tables)
    requires KernelTablesFit(base)
  {
    var z := t[base := ZeroTable()][base + 0x1000 := ZeroTable()][base + 0x2000 := ZeroTable()]
              [base + 0x3000 := ZeroTable()][base + 0x4000 := ZeroTable()];
    var l0 := SetEntry(z, base, 0, MakePte(base + 0x1000, PTE_PWU));
    var l1 := SetEntry(l0, base + 0x1000, 0, MakePte(base + 0x2000, PTE_PWU));
    var l2 := SetEntry(l1, base + 0x2000, 0, MakePte(base + 0x3000, PTE_PWU));
    SetEntry(l2, base + 0x2000, 1, MakePte(base + 0x4000, PTE_PWU))
  }

  /** The loop of `virtual_memory_init` that checks the identity map: every
      page of physical memory looks up to itself with at least P and W. */
  predicate KernelIdentityChecked(t: Tables, kpt: U64)
  {
    forall addr: U64 {:trigger VirtualMemoryLookup(t, kpt, addr)} | addr < MEMSIZE_PHYSICAL && addr % 4096 == 0 ::
      && VirtualMemoryLookup(t, kpt, addr).pa == addr
      && IsPresent(VirtualMemoryLookup(t, kpt, addr).perm)
      && IsWritable(VirtualMemoryLookup(t, kpt, addr).perm)
  }

  /** The assertions of `set_pagetable(pagetable)`: the table is page
      aligned, and the interrupt handler, `virtual_memory_map` and both page
      tables are identity-mapped where the kernel needs them. `handler` and
      `mapFn` are the addresses of `default_int_handler` and
      `virtual_memory_map`. */
  predicate SetPagetableChecks(t: Tables, kernelPt: U64, pt: U64, handler: U64, mapFn: U64)
  {
    && PageOffset(pt) == 0
    && VirtualMemoryLookup(t, pt, handler).pa == handler
    && VirtualMemoryLookup(t, kernelPt, pt).pa == pt
    && VirtualMemoryLookup(t, pt, kernelPt).pa == kernelPt
    && VirtualMemoryLookup(t, pt, mapFn).pa == mapFn
  }

  /** `set_pagetable`: a panic, or the value loaded into CR3. */
  function SetPagetable(t: Tables, kernelPt: U64, pt: U64, handler: U64, mapFn: U64): (cr3: Option<U64>)
    ensures cr3.Some? ==> cr3.value == pt && PageOffset(cr3.value) == 0
  {
    if SetPagetableChecks(t, kernelPt, pt, handler, mapFn) then Some(pt) else None
  }

  /** The addresses `set_pagetable` checks besides its argument:
      `kernel_pagetable`, `default_int_handler` and `virtual_memory_map`. */
  datatype KernelAddresses = KernelAddresses(kernelPagetable: U64, handler: U64, mapFn: U64)

  /** `set_pagetable(pt)` called with the kernel's own addresses. */
  function Activate(t: Tables, k: KernelAddresses, pt: U64): (cr3: Option<U64>)
    ensures cr3.Some? ==> cr3.value == pt
  {
    SetPagetable(t, k.kernelPagetable, pt, k.handler, k.mapFn)
  }

  /** The virtual-memory calls the loader and the kernel make, as values:
      `virtual_memory_map`, `virtual_memory_lookup` and `set_pagetable`,
      with the kernel's page table. */
  datatype Vm = Vm(
    kernelPagetable: U64,
    virtualMap: (Tables, U64, U64, U64, U64, int) -> MapResult,
    lookup: (Tables, U64, U64) -> VAMapping,
    setPagetable: (Tables, U64) -> Option<U64>)

  /** The calls as this model defines them. */
  function KernelVm(k: KernelAddresses): (vm: Vm)
    ensures vm.kernelPagetable == k.kernelPagetable
  {
    Vm(k.kernelPagetable, VirtualMemoryMap, VirtualMemoryLookup, (t: Tables, pt: U64) => Activate(t, k, pt))
  }

  /** The outcome of `virtual_memory_init`: a panic, or the tables with
      `kernel_pagetable` and the CR3 value. */
  datatype InitResult = InitPanic | Initialized(tables: Tables, kernelPagetable: U64, cr3: U64)

  /** `virtual_memory_init` with `kernel_pagetables` at `base`. The result of
      `virtual_memory_map` is ignored, as in the source; its panics are not. */
  function VirtualMemoryInit(t: Tables, base: U64, handler: U64, mapFn: U64): (r: InitResult)
    requires KernelTablesFit(base)
    ensures r.Initialized? ==> r.kernelPagetable == base && r.cr3 == base
    ensures r.Initialized? ==> KernelIdentityChecked(r.tables, base)
  {
    var m := VirtualMemoryMap(LinkedTables(t, base), base, 0, 0, MEMSIZE_PHYSICAL, PTE_PWU);
    if m.MapPanic? then InitPanic
    else if !KernelIdentityChecked(m.tables, base) then InitPanic
    else match SetPagetable(m.tables, base, base, handler, mapFn)
      case None => InitPanic
      case Some(cr3) => Initialized(m.tables, base, cr3)
  }

  // ---------------------------------------------------------------- the proof

  /** A link entry `x | P | W | U` to a table in physical memory passes the
      sanity checks of `lookup_l1pagetable` for any request among W and U. */
  lemma LinkEntrySane(x: U64)
    requires x % 4096 == 0 && x < MEMSIZE_PHYSICAL
    ensures IsPresent(MakePte(x, PTE_PWU)) && EntrySane(MakePte(x, PTE_PWU), PTE_PWU)
    ensures PteAddr(MakePte(x, PTE_PWU)) == x
  {
    PteRoundTrip(x, PTE_PWU);
    FlagsOfPteFlags(MakePte(x, PTE_PWU));
  }

  /** The four link entries of `virtual_memory_init` are in place in `l`. */
  predicate LinksInPlace(l: Tables, base: U64)
    requires KernelTablesFit(base)
  {
    && Entry(l, base, 0) == MakePte(base + 0x1000, PTE_PWU)
    && Entry(l, base + 0x1000, 0) == MakePte(base + 0x2000, PTE_PWU)
    && Entry(l, base + 0x2000, 0) == MakePte(base + 0x3000, PTE_PWU)
    && Entry(l, base + 0x2000, 1) == MakePte(base + 0x4000, PTE_PWU)
  }

  /** After linking, the link entries are in place, and no table outside
      the five has changed. */
  lemma LinkedEntries(t: Tables, base: U64)
    requires KernelTablesFit(base)
    ensures LinksInPlace(LinkedTables(t, base), base)
    ensures forall tb: U64, i: nat {:trigger Entry(LinkedTables(t, base), tb, i)}
      | i < NPAGETABLEENTRIES && !IsKernelTable(base, tb) ::
      Entry(LinkedTables(t, base), tb, i) == Entry(t, tb, i)
  {
  }

  /** Every address of physical memory walks through tables 0, 1 and 2 to
      table 3: all of physical memory is the first 2 MiB region. */
  lemma LinkedWalk(l: Tables, base: U64, a: U64)
    requires KernelTablesFit(base) && base + 5 * PAGESIZE <= MEMSIZE_PHYSICAL && a < MEMSIZE_PHYSICAL
    requires LinksInPlace(l, base)
    ensures LookupL1(l, base, a, PTE_PWU) == L1Ptr(base + 0x3000)
    ensures UpperTables(l, base, a) == {base, base + 0x1000, base + 0x2000}
  {
    assert PageIndex(a, 0) == 0 && PageIndex(a, 1) == 0 && PageIndex(a, 2) == 0;
    LinkEntrySane(base + 0x1000);
    LinkEntrySane(base + 0x2000);
    LinkEntrySane(base + 0x3000);
    assert PathEntry(l, base, a, 0) == MakePte(base + 0x1000, PTE_PWU);
    assert PathEntry(l, base, a, 1) == MakePte(base + 0x2000, PTE_PWU);
    assert PathEntry(l, base, a, 2) == MakePte(base + 0x3000, PTE_PWU);
    LookupL1Spec(l, base, a, PTE_PWU);
  }

  /** Distinct pages of physical memory have distinct level-1 indices. */
  lemma L1IndexDistinct(a: U64, b: U64)
    requires a % 4096 == 0 && b % 4096 == 0 && a < MEMSIZE_PHYSICAL && b < MEMSIZE_PHYSICAL && a != b
    ensures L1PageIndex(a) != L1PageIndex(b)
  {
    var x, y := a / 4096, b / 4096;
    assert a == x * 4096 && b == y * 4096;
    assert x < 512 && y < 512;
    assert PageIndex(a, 3) == x && PageIndex(b, 3) == y;
  }

  /** Every page of physical memory has table 3 as its level-1 table. */
  lemma LinkedAllHaveL1(l: Tables, base: U64)
    requires KernelTablesFit(base) && base + 5 * PAGESIZE <= MEMSIZE_PHYSICAL && LinksInPlace(l, base)
    ensures AllHaveL1(l, base, 0, MEMSIZE_PHYSICAL, PTE_PWU)
  {
    forall a: U64 | InRange(a, 0, MEMSIZE_PHYSICAL)
      ensures HasL1(l, base, a, PTE_PWU)
    {
      LinkedWalk(l, base, a);
    }
  }

  /** Table 3 is none of the upper tables, and the pages of physical memory
      use distinct slots of it. */
  lemma LinkedSeparated(l: Tables, base: U64)
    requires KernelTablesFit(base) && base + 5 * PAGESIZE <= MEMSIZE_PHYSICAL && LinksInPlace(l, base)
    ensures Separated(l, base, 0, MEMSIZE_PHYSICAL, PTE_PWU)
  {
    forall a: U64, b: U64 | InRange(a, 0, MEMSIZE_PHYSICAL) && InRange(b, 0, MEMSIZE_PHYSICAL)
      ensures LookupL1(l, base, a, PTE_PWU) == L1Ptr(base + 0x3000)
      ensures base + 0x3000 !in UpperTables(l, base, b)
    {
      LinkedWalk(l, base, a);
      LinkedWalk(l, base, b);
    }
    forall a: U64, b: U64 | InRange(a, 0, MEMSIZE_PHYSICAL) && InRange(b, 0, MEMSIZE_PHYSICAL) && a != b
      ensures L1PageIndex(a) != L1PageIndex(b)
    {
      L1IndexDistinct(a, b);
    }
  }

  /** Tables that identity-map all of physical memory, for both the kernel
      table and `pt`, pass `set_pagetable`'s checks whenever the handler and
      `virtual_memory_map` live in physical memory. */
  lemma IdentitySetPagetable(t: Tables, kernelPt: U64, pt: U64, handler: U64, mapFn: U64)
    requires PageOffset(pt) == 0 && kernelPt < MEMSIZE_PHYSICAL && pt < MEMSIZE_PHYSICAL
    requires handler < MEMSIZE_PHYSICAL && mapFn < MEMSIZE_PHYSICAL
    requires forall a: U64 | a < MEMSIZE_PHYSICAL ::
      VirtualMemoryLookup(t, kernelPt, a).pa == a && VirtualMemoryLookup(t, pt, a).pa == a
    ensures SetPagetable(t, kernelPt, pt, handler, mapFn) == Some(pt)
  {
  }

  /** The identity map that `virtual_memory_init` asks of `virtual_memory_map`
      over linked tables: it succeeds, maps every address of physical memory
      to itself with P, W and U, and writes only leaf slots of table 3. */
  lemma IdentityMap(l: Tables, base: U64)
    requires KernelTablesFit(base) && base + 5 * PAGESIZE <= MEMSIZE_PHYSICAL && LinksInPlace(l, base)
    ensures var m := VirtualMemoryMap(l, base, 0, 0, MEMSIZE_PHYSICAL, PTE_PWU);
      && m.MapDone? && m.code == 0
      && (forall a: U64 | a < MEMSIZE_PHYSICAL ::
            && VirtualMemoryLookup(m.tables, base, a) == VAMapping(PageNumber(a), a, PTE_PWU)
            && VirtualMemoryLookupIntended(m.tables, base, a) == VAMapping(PageNumber(a), a, PTE_PWU))
      && (forall tb: U64, i: nat | i < NPAGETABLEENTRIES && tb != base + 0x3000 ::
            Entry(m.tables, tb, i) == Entry(l, tb, i))
  {
    LinkedAllHaveL1(l, base);
    LinkedSeparated(l, base);
    VirtualMemoryMapRoundTrip(l, base, 0, 0, MEMSIZE_PHYSICAL, PTE_PWU);
    IdentityFrame(l, base);
  }

  lemma IdentityFrame(l: Tables, base: U64)
    requires KernelTablesFit(base) && base + 5 * PAGESIZE <= MEMSIZE_PHYSICAL && LinksInPlace(l, base)
    requires AllHaveL1(l, base, 0, MEMSIZE_PHYSICAL, PTE_PWU) && Separated(l, base, 0, MEMSIZE_PHYSICAL, PTE_PWU)
    ensures var m := VirtualMemoryMap(l, base, 0, 0, MEMSIZE_PHYSICAL, PTE_PWU);
      m.MapDone? && forall tb: U64, i: nat | i < NPAGETABLEENTRIES && tb != base + 0x3000 ::
        Entry(m.tables, tb, i) == Entry(l, tb, i)
  {
    AllHaveL1Walkable(l, base, 0, MEMSIZE_PHYSICAL, PTE_PWU);
    VirtualMemoryMapEffect(l, base, 0, 0, MEMSIZE_PHYSICAL, PTE_PWU);
    var m := VirtualMemoryMap(l, base, 0, 0, MEMSIZE_PHYSICAL, PTE_PWU);
    forall tb: U64, i: nat | i < NPAGETABLEENTRIES && tb != base + 0x3000
      ensures Entry(m.tables, tb, i) == Entry(l, tb, i)
    {
      if Entry(m.tables, tb, i) != Entry(l, tb, i) {
        var a: U64 :| InRange(a, 0, MEMSIZE_PHYSICAL) && HasL1(l, base, a, PTE_PWU)
          && LookupL1(l, base, a, PTE_PWU).addr == tb && L1PageIndex(a) == i;
        LinkedWalk(l, base, a);
        assert false;
      }
    }
  }

  /** Tables in which the kernel page table maps every address of physical
      memory to itself with P, W and U pass the checking loop of
      `virtual_memory_init` and the checks of `set_pagetable`. */
  lemma IdentityPasses(t: Tables, base: U64, handler: U64, mapFn: U64)
    requires base % 4096 == 0 && base < MEMSIZE_PHYSICAL
    requires handler < MEMSIZE_PHYSICAL && mapFn < MEMSIZE_PHYSICAL
    requires forall a: U64 | a < MEMSIZE_PHYSICAL ::
      VirtualMemoryLookup(t, base, a) == VAMapping(PageNumber(a), a, PTE_PWU)
    ensures KernelIdentityChecked(t, base)
    ensures SetPagetable(t, base, base, handler, mapFn) == Some(base)
  {
    assert IsWritable(PTE_PWU);
    IdentitySetPagetable(t, base, base, handler, mapFn);
  }

  /** `virtual_memory_init` succeeds exactly when its three stages pass. */
  lemma InitStages(t: Tables, base: U64, handler: U64, mapFn: U64)
    requires KernelTablesFit(base)
    ensures var m := VirtualMemoryMap(LinkedTables(t, base), base, 0, 0, MEMSIZE_PHYSICAL, PTE_PWU);
      VirtualMemoryInit(t, base, handler, mapFn)
      == if m.MapDone? && KernelIdentityChecked(m.tables, base) && SetPagetable(m.tables, base, base, handler, mapFn).Some?
         then Initialized(m.tables, base, base) else InitPanic
  {
  }

  /** With `kernel_pagetables` in physical memory, `virtual_memory_init`
      succeeds and loads the kernel page table, which maps every address of
      physical memory to itself with P, W and U through either mask, and
      leaves every table other than its five untouched. */
  lemma VirtualMemoryInitIdentity(t: Tables, base: U64, handler: U64, mapFn: U64)
    requires KernelTablesFit(base) && base + 5 * PAGESIZE <= MEMSIZE_PHYSICAL
    requires handler < MEMSIZE_PHYSICAL && mapFn < MEMSIZE_PHYSICAL
    ensures var r := VirtualMemoryInit(t, base, handler, mapFn);
      && r.Initialized? && r.kernelPagetable == base && r.cr3 == base
      && (forall a: U64 | a < MEMSIZE_PHYSICAL ::
            && VirtualMemoryLookup(r.tables, base, a) == VAMapping(PageNumber(a), a, PTE_PWU)
            && VirtualMemoryLookupIntended(r.tables, base, a) == VAMapping(PageNumber(a), a, PTE_PWU))
      && (forall tb: U64, i: nat | i < NPAGETABLEENTRIES && !IsKernelTable(base, tb) ::
            Entry(r.tables, tb, i) == Entry(t, tb, i))
  {
    var l := LinkedTables(t, base);
    LinkedEntries(t, base);
    IdentityMap(l, base);
    var m := VirtualMemoryMap(l, base, 0, 0, MEMSIZE_PHYSICAL, PTE_PWU);
    IdentityPasses(m.tables, base, handler, mapFn);
    InitStages(t, base, handler, mapFn);
  }
}
