/** A whole segment load's page tables, put together from the loops of
    `SegmentMaps`. */
module SegmentLoad {
  import opened X86
  import opened Wrappers
  import opened Layout
  import opened PageTables
  import opened VirtualMemory
  import opened KernelPageTable
  import opened Elf
  import opened Loader
  import opened SegmentMaps

  /** The allocation loop of `[v0, endMem)` with `vm` completed as `alloc`,
      and the finish kept tables `t`. */
  predicate Completed(vm: Vm, t0: Tables, pt: U64, ph: ElfProgram, v0: U64, endMem: U64,
                      pages: seq<U64>, calls: nat, alloc: AllocResult, t: Tables)
  {
    && alloc == AllocatePages(vm, t0, pt, v0, endMem, pages, calls) && alloc.Allocated?
    && FinishSegment(vm, alloc.tables, pt, ph, v0, endMem) == Some(t)
  }

  /** A segment load that returns 0 completed its allocation loop, and its
      tables are those its finish kept. */
  lemma SegmentParts(vm: Vm, sp: Space, pt: U64, ph: ElfProgram, img: seq<Byte>, pages: seq<U64>, calls: nat,
                     r: SegmentResult)
    returns (endMem: U64, alloc: AllocResult)
    requires r == ProgramLoadSegment(vm, sp, pt, ph, img, pages, calls) && r.SegmentDone? && r.code == 0
    ensures endMem == ph.va + ph.memsz
    ensures Completed(vm, sp.tables, pt, ph, PageDown(ph.va), endMem, pages, calls, alloc, r.space.tables)
  {
    var vaDown := PageDown(ph.va);
    endMem := ph.va + ph.memsz;
    alloc := AllocatePages(vm, sp.tables, pt, vaDown, endMem, pages, calls);
    var finish := if alloc.Allocated? then FinishSegment(vm, alloc.tables, pt, ph, vaDown, endMem) else None;
    assert ProgramLoadSegment(vm, sp, pt, ph, img, pages, calls) == Assemble(sp, ph, img, vaDown, alloc, finish);
  }

  /** In `t`, every page of the range looks up to its `palloc` page with
      `perm`, and only the range's leaf slots differ from `t0`. */
  predicate SegmentMapped(t0: Tables, t: Tables, pt: U64, v0: U64, sz: nat, pages: seq<U64>, calls: nat, perm: int)
  {
    && OnlyLeafSlots(t0, t, pt, v0, sz, PTE_PWU)
    && forall a: U64 {:trigger InRange(a, v0, sz)} | InRange(a, v0, sz) ::
         var x := FrameOf(pages, calls, v0, a);
         VirtualMemoryLookup(t, pt, a) == VAMapping(PageNumber(x), x, perm)
  }

  /** The allocation loop and the finish, with the model's page calls, from
      tables ready for the range. */
  lemma SegmentTablesMapped(k: KernelAddresses, t0: Tables, pt: U64, ph: ElfProgram, v0: U64, endMem: U64, sz: nat,
                            pages: seq<U64>, calls: nat, alloc: AllocResult, t: Tables)
    requires sz == Steps(v0, endMem) * PAGESIZE && Ready(t0, pt, v0, sz)
    requires Completed(KernelVm(k), t0, pt, ph, v0, endMem, pages, calls, alloc, t)
    ensures SegmentMapped(t0, t, pt, v0, sz, pages, calls, SegmentPerm(ph))
  {
    ReadyDistinct(t0, pt, v0, sz);
    StartLeaves(t0, pt, v0, sz, pages, calls);
    AllocateMaps(k, t0, pt, v0, sz, endMem, pages, calls);
    FinishMaps(k, t0, alloc.tables, pt, ph, v0, endMem, sz, pages, calls);
    TouchedOnly(t0, t, pt, v0, sz);
    RangeLooksUp(t0, t, pt, v0, sz, pages, calls, SegmentPerm(ph));
  }

  /** A segment load that returns 0, from tables ready for its range. */
  lemma SegmentLoadMaps(k: KernelAddresses, sp: Space, pt: U64, ph: ElfProgram, img: seq<Byte>,
                        pages: seq<U64>, calls: nat, r: SegmentResult, v0: U64, sz: nat)
    requires r == ProgramLoadSegment(KernelVm(k), sp, pt, ph, img, pages, calls) && r.SegmentDone? && r.code == 0
    requires v0 == PageDown(ph.va) && sz == Steps(v0, ph.va + ph.memsz) * PAGESIZE && Ready(sp.tables, pt, v0, sz)
    ensures SegmentMapped(sp.tables, r.space.tables, pt, v0, sz, pages, calls, SegmentPerm(ph))
  {
    var endMem, alloc := SegmentParts(KernelVm(k), sp, pt, ph, img, pages, calls, r);
    assert Steps(v0, endMem) == Steps(v0, ph.va + ph.memsz);
    SegmentTablesMapped(k, sp.tables, pt, ph, v0, endMem, sz, pages, calls, alloc, r.space.tables);
  }

  /** A segment load with the model's page calls that returns 0 leaves every
      page of `[rounddown(p_va), p_va + p_memsz)` looking up to the page
      `palloc` gave it, with `P|W|U` for a segment with `ELF_PFLAG_WRITE` and
      `P|U` for one without; no entry other than those pages' leaf slots
      changes. */
  lemma ProgramLoadSegmentMaps(k: KernelAddresses, sp: Space, pt: U64, ph: ElfProgram, img: seq<Byte>,
                               pages: seq<U64>, calls: nat)
    requires Ready(sp.tables, pt, PageDown(ph.va), Steps(PageDown(ph.va), ph.va + ph.memsz) * PAGESIZE)
    ensures var r := ProgramLoadSegment(KernelVm(k), sp, pt, ph, img, pages, calls);
      r.SegmentDone? && r.code == 0 ==>
        SegmentMapped(sp.tables, r.space.tables, pt, PageDown(ph.va), Steps(PageDown(ph.va), ph.va + ph.memsz) * PAGESIZE,
                      pages, calls, SegmentPerm(ph))
  {
    var r := ProgramLoadSegment(KernelVm(k), sp, pt, ph, img, pages, calls);
    if r.SegmentDone? && r.code == 0 {
      SegmentLoadMaps(k, sp, pt, ph, img, pages, calls, r, PageDown(ph.va), Steps(PageDown(ph.va), ph.va + ph.memsz) * PAGESIZE);
    }
  }
}
