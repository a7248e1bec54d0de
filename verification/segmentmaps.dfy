/** The page-table side of `program_load_segment` (kloader.rs) when its
    page calls are this model's `virtual_memory_map` and
    `virtual_memory_lookup`: every page of the segment ends up mapped to the
    page `palloc` gave it, `P|W|U`, or `P|U` when the segment lacks
    `ELF_PFLAG_WRITE`, and no entry outside those leaf slots changes. */
module SegmentMaps {
  import opened X86
  import opened Wrappers
  import opened Layout
  import opened PageTables
  import opened VirtualMemory
  import opened KernelPageTable
  import opened Elf
  import opened Loader

  /** The permission a loaded segment's pages end with. */
  function SegmentPerm(ph: ElfProgram): (perm: int)
    ensures IsPresent(perm) && IsUser(perm) && (IsWritable(perm) <==> IsWritableSegment(ph))
  {
    if IsWritableSegment(ph) then PTE_PWU else PTE_P + PTE_U
  }

  /** The level-1 table that the tables `t0` give page `a`. */
  function L1Of(t0: Tables, pt: U64, a: U64): U64
  {
    var l1 := LookupL1(t0, pt, a, PTE_PWU);
    if l1.L1Ptr? then l1.addr else 0
  }

  /** The page `palloc` returned for page `a` of a loop that started at
      `v0` on call number `calls`. */
  function FrameOf(pages: seq<U64>, calls: nat, v0: U64, a: U64): U64
    requires v0 <= a
  {
    Palloc(pages, calls + (a - v0) / PAGESIZE)
  }

  /** What the loader relies on from the process's table before the load: a
      page-aligned root, and a page-aligned range below 2^47 whose pages all
      have level-1 tables that do not overlap their walks or leaf slots. */
  predicate Ready(t0: Tables, pt: U64, v0: U64, sz: nat)
  {
    && pt % 4096 == 0 && v0 % 4096 == 0 && sz % 4096 == 0 && v0 + sz <= LOWER_HALF
    && AllHaveL1(t0, pt, v0, sz, PTE_PWU) && Separated(t0, pt, v0, sz, PTE_PWU)
  }

  /** Every page of the range in `[lo, hi)` has, in `t`, the leaf entry
      naming its `palloc` page with `perm`. */
  predicate Leaves(t0: Tables, t: Tables, pt: U64, v0: U64, sz: nat, lo: int, hi: int,
                   pages: seq<U64>, calls: nat, perm: int)
  {
    forall a: U64 {:trigger InRange(a, v0, sz)} | InRange(a, v0, sz) && lo <= a < hi ::
      var x := FrameOf(pages, calls, v0, a);
      && x % PAGESIZE == 0 && x + PAGESIZE <= MEMSIZE_PHYSICAL && 0 <= perm < PAGESIZE
      && Entry(t, L1Of(t0, pt, a), L1PageIndex(a)) == MakePte(x, perm)
  }

  // ---------------------------------------------------------------- page arithmetic

  /** A page of the loop below `endMem` is a page of the range. */
  lemma AddrInRange(addr: U64, v0: U64, endMem: int)
    requires v0 <= addr < endMem && (addr - v0) % PAGESIZE == 0
    ensures InRange(addr, v0, Steps(v0, endMem) * PAGESIZE)
  {
    var m, d := (addr - v0) / PAGESIZE, endMem - v0;
    assert addr - v0 == m * PAGESIZE;
    assert (m + 1) * PAGESIZE <= d + PAGESIZE - 1;
    DivBound(m + 1, d + PAGESIZE - 1);
  }

  lemma DivBound(m: nat, n: nat)
    requires m * PAGESIZE <= n
    ensures m <= n / PAGESIZE
  {
  }

  /** Every page of the range lies below `endMem`. */
  lemma PageBelowEnd(a: U64, v0: U64, endMem: int)
    requires InRange(a, v0, Steps(v0, endMem) * PAGESIZE)
    ensures a < endMem
  {
    var s, d := Steps(v0, endMem), endMem - v0;
    assert s * PAGESIZE <= d + PAGESIZE - 1;
    var m := (a - v0) / PAGESIZE;
    assert a - v0 == m * PAGESIZE;
    assert m + 1 <= s;
    assert m * PAGESIZE + PAGESIZE <= s * PAGESIZE;
  }

  /** Moving one page on moves the page count by one. */
  lemma NextPageCount(addr: int, v0: int)
    requires v0 <= addr && (addr - v0) % PAGESIZE == 0
    ensures (addr + PAGESIZE - v0) % PAGESIZE == 0
    ensures (addr + PAGESIZE - v0) / PAGESIZE == (addr - v0) / PAGESIZE + 1
  {
  }

  /** A page of a page-aligned range is page-aligned. */
  lemma RangePageAligned(a: int, v0: int, sz: int)
    requires InRange(a, v0, sz) && v0 % PAGESIZE == 0
    ensures a % PAGESIZE == 0
  {
    var m, n := (a - v0) / PAGESIZE, v0 / PAGESIZE;
    assert a == (m + n) * PAGESIZE;
  }

  /** Pages of a range less than a page apart are the same page. */
  lemma OnePageAt(a: int, a0: int, v0: int, sz: int)
    requires InRange(a, v0, sz) && InRange(a0, v0, sz) && a0 <= a < a0 + PAGESIZE
    ensures a == a0
  {
    var m, m0 := (a - v0) / PAGESIZE, (a0 - v0) / PAGESIZE;
    assert a - v0 == m * PAGESIZE && a0 - v0 == m0 * PAGESIZE;
    assert (m - m0) * PAGESIZE < PAGESIZE;
  }

  // ---------------------------------------------------------------- one page

  /** Walking with `P|U` finds the level-1 table that walking with `P|W|U`
      finds, since it asks the upper entries for less. */
  lemma L1Weaker(t: Tables, pt: U64, a: U64)
    requires HasL1(t, pt, a, PTE_PWU)
    ensures LookupL1(t, pt, a, PTE_P + PTE_U) == LookupL1(t, pt, a, PTE_PWU)
    ensures forall level | 0 <= level <= 2 :: EntrySane(PathEntry(t, pt, a, level), PTE_P + PTE_U)
  {
    LookupL1Spec(t, pt, a, PTE_PWU);
    LookupL1Spec(t, pt, a, PTE_P + PTE_U);
    assert !IsWritable(PTE_P + PTE_U) && IsUser(PTE_P + PTE_U) && IsUser(PTE_PWU);
  }

  /** A page of the range keeps, in tables changed only in the range's leaf
      slots, the level-1 table it has in `t0`, for either permission. */
  lemma WalkKept(t0: Tables, t: Tables, pt: U64, v0: U64, sz: nat, a: U64, perm: int)
    requires AllHaveL1(t0, pt, v0, sz, PTE_PWU) && Separated(t0, pt, v0, sz, PTE_PWU)
    requires OnlyLeafSlots(t0, t, pt, v0, sz, PTE_PWU) && InRange(a, v0, sz)
    requires perm == PTE_PWU || perm == PTE_P + PTE_U
    ensures L1Of(t0, pt, a) != 0 && LookupL1(t, pt, a, perm) == L1Ptr(L1Of(t0, pt, a))
  {
    assert HasL1(t0, pt, a, PTE_PWU);
    UpperPathKept(t0, t, pt, v0, sz, PTE_PWU, a);
    WalkKeptStep(t0, t, pt, a, perm);
  }

  lemma WalkKeptStep(t0: Tables, t: Tables, pt: U64, a: U64, perm: int)
    requires HasL1(t0, pt, a, PTE_PWU)
    requires perm == PTE_PWU || perm == PTE_P + PTE_U
    requires PathEntry(t, pt, a, 0) == PathEntry(t0, pt, a, 0)
    requires PathEntry(t, pt, a, 1) == PathEntry(t0, pt, a, 1)
    requires PathEntry(t, pt, a, 2) == PathEntry(t0, pt, a, 2)
    requires PathTable(t, pt, a, 3) == PathTable(t0, pt, a, 3)
    ensures L1Of(t0, pt, a) != 0 && LookupL1(t, pt, a, perm) == L1Ptr(L1Of(t0, pt, a))
  {
    LookupL1Spec(t, pt, a, perm);
    LookupL1Spec(t0, pt, a, perm);
    if perm != PTE_PWU {
      L1Weaker(t0, pt, a);
    }
  }

  /** `virtual_memory_map` of one page whose level-1 table is `tb` writes
      `x | perm` into that page's slot of `tb` and returns 0. */
  lemma MapOneStep(t: Tables, pt: U64, a: U64, x: U64, perm: int, tb: U64)
    requires LookupL1(t, pt, a, perm) == L1Ptr(tb) && tb != 0
    requires pt % 4096 == 0 && a % 4096 == 0 && a < LOWER_HALF
    requires perm == PTE_PWU || perm == PTE_P + PTE_U
    requires x % PAGESIZE == 0 && x + PAGESIZE <= MEMSIZE_PHYSICAL
    ensures VirtualMemoryMap(t, pt, a, x, PAGESIZE, perm)
         == MapDone(0, SetEntry(t, tb, L1PageIndex(a), MakePte(x, perm)))
  {
    RegionKeys(a, a);
    assert MapArgumentsOk(pt, a, x, PAGESIZE, perm);
    MapLoopStep(t, pt, a, x, PAGESIZE, perm, -1, 0);
    assert LeafEntry(x, perm) == MakePte(x, perm);
  }

  /** Only leaf slots of pages of the range differ between `t0` and `t`:
      `OnlyLeafSlots` with the page test written out, so that the page it
      names for a changed slot does not bring in every fact about the
      range's pages. */
  predicate Touched(t0: Tables, t: Tables, pt: U64, v0: U64, sz: nat)
  {
    forall tb: U64, i: nat {:trigger Entry(t, tb, i)} | i < NPAGETABLEENTRIES && Entry(t, tb, i) != Entry(t0, tb, i) ::
      exists a: U64 {:trigger L1Of(t0, pt, a)} | v0 <= a < v0 + sz && (a - v0) % 4096 == 0 && HasL1(t0, pt, a, PTE_PWU) ::
        L1Of(t0, pt, a) == tb && L1PageIndex(a) == i
  }

  lemma TouchedOnly(t0: Tables, t: Tables, pt: U64, v0: U64, sz: nat)
    requires Touched(t0, t, pt, v0, sz)
    ensures OnlyLeafSlots(t0, t, pt, v0, sz, PTE_PWU)
  {
    forall tb: U64, i: nat | i < NPAGETABLEENTRIES && Entry(t, tb, i) != Entry(t0, tb, i)
      ensures exists c: U64 {:trigger InRange(c, v0, sz)} | InRange(c, v0, sz) && HasL1(t0, pt, c, PTE_PWU) ::
        LookupL1(t0, pt, c, PTE_PWU).addr == tb && L1PageIndex(c) == i
    {
      var a: U64 :| v0 <= a < v0 + sz && (a - v0) % 4096 == 0 && HasL1(t0, pt, a, PTE_PWU)
                    && L1Of(t0, pt, a) == tb && L1PageIndex(a) == i;
      assert InRange(a, v0, sz);
    }
  }

  /** Writing the leaf slot of a page of the range keeps every change
      confined to the range's leaf slots. */
  lemma FrameOne(t0: Tables, t: Tables, pt: U64, v0: U64, sz: nat, a: U64, v: U64)
    requires Touched(t0, t, pt, v0, sz) && InRange(a, v0, sz) && HasL1(t0, pt, a, PTE_PWU)
    ensures Touched(t0, SetEntry(t, L1Of(t0, pt, a), L1PageIndex(a), v), pt, v0, sz)
  {
    var tb := L1Of(t0, pt, a);
    var t' := SetEntry(t, tb, L1PageIndex(a), v);
    forall b: U64, i: nat | i < NPAGETABLEENTRIES && Entry(t', b, i) != Entry(t0, b, i)
      ensures exists c: U64 {:trigger L1Of(t0, pt, c)} | v0 <= c < v0 + sz && (c - v0) % 4096 == 0 && HasL1(t0, pt, c, PTE_PWU) ::
        L1Of(t0, pt, c) == b && L1PageIndex(c) == i
    {
      if Entry(t', b, i) != Entry(t, b, i) {
        assert b == tb && i == L1PageIndex(a);
      } else {
        assert Entry(t, b, i) != Entry(t0, b, i);
      }
    }
  }

  /** Mapping one page of the range in tables changed only in the range's
      leaf slots writes that page's leaf slot and nothing else, and returns 0. */
  lemma MapOnePage(t0: Tables, t: Tables, pt: U64, v0: U64, sz: nat, a: U64, x: U64, perm: int)
    requires Ready(t0, pt, v0, sz) && Touched(t0, t, pt, v0, sz) && InRange(a, v0, sz)
    requires perm == PTE_PWU || perm == PTE_P + PTE_U
    requires x % PAGESIZE == 0 && x + PAGESIZE <= MEMSIZE_PHYSICAL
    ensures var t' := SetEntry(t, L1Of(t0, pt, a), L1PageIndex(a), MakePte(x, perm));
      && VirtualMemoryMap(t, pt, a, x, PAGESIZE, perm) == MapDone(0, t')
      && Touched(t0, t', pt, v0, sz)
  {
    TouchedOnly(t0, t, pt, v0, sz);
    WalkKept(t0, t, pt, v0, sz, a, perm);
    RangePageAligned(a, v0, sz);
    MapOneStep(t, pt, a, x, perm, L1Of(t0, pt, a));
    assert HasL1(t0, pt, a, PTE_PWU);
    FrameOne(t0, t, pt, v0, sz, a, MakePte(x, perm));
  }

  /** A leaf slot of the range holding `x | perm` makes the page look up to
      `x` with `perm`. */
  lemma LeafLooksUp(t0: Tables, t: Tables, pt: U64, v0: U64, sz: nat, a: U64, x: U64, perm: int)
    requires Ready(t0, pt, v0, sz) && OnlyLeafSlots(t0, t, pt, v0, sz, PTE_PWU) && InRange(a, v0, sz)
    requires perm == PTE_PWU || perm == PTE_P + PTE_U
    requires x % PAGESIZE == 0 && x + PAGESIZE <= MEMSIZE_PHYSICAL
    requires Entry(t, L1Of(t0, pt, a), L1PageIndex(a)) == MakePte(x, perm)
    ensures VirtualMemoryLookup(t, pt, a) == VAMapping(PageNumber(x), x, perm)
  {
    assert HasL1(t0, pt, a, PTE_PWU);
    LeafOfPage(t0, t, pt, v0, sz, PTE_PWU, a);
    if perm != PTE_PWU {
      assert !IsWritable(perm) && IsUser(PTE_PWU);
    }
    assert SaneLeafPath(t, pt, a, x, perm);
    RangePageAligned(a, v0, sz);
    assert PageOffset(a) == 0;
    LookupOfLeaf(t, pt, a, x, x, perm);
  }

  /** Distinct pages of the range have distinct leaf slots. */
  predicate DistinctSlots(t0: Tables, pt: U64, v0: U64, sz: nat)
  {
    forall a: U64, b: U64 {:trigger InRange(a, v0, sz), InRange(b, v0, sz)}
      | InRange(a, v0, sz) && InRange(b, v0, sz) && a != b ::
      L1Of(t0, pt, a) != L1Of(t0, pt, b) || L1PageIndex(a) != L1PageIndex(b)
  }

  /** A range ready for the loader has distinct leaf slots. */
  lemma ReadyDistinct(t0: Tables, pt: U64, v0: U64, sz: nat)
    requires Ready(t0, pt, v0, sz)
    ensures DistinctSlots(t0, pt, v0, sz)
  {
    forall a: U64, b: U64 | InRange(a, v0, sz) && InRange(b, v0, sz) && a != b
      ensures L1Of(t0, pt, a) != L1Of(t0, pt, b) || L1PageIndex(a) != L1PageIndex(b)
    {
      assert HasL1(t0, pt, a, PTE_PWU) && HasL1(t0, pt, b, PTE_PWU);
    }
  }

  /** Writing the leaf slot of a page outside `[lo, hi)` keeps the leaves of
      `[lo, hi)`: distinct pages of a separated range have distinct slots. */
  lemma LeavesKept(t0: Tables, t: Tables, pt: U64, v0: U64, sz: nat, lo: int, hi: int,
                   pages: seq<U64>, calls: nat, perm: int, a0: U64, v: U64)
    requires DistinctSlots(t0, pt, v0, sz) && InRange(a0, v0, sz) && !(lo <= a0 < hi)
    requires Leaves(t0, t, pt, v0, sz, lo, hi, pages, calls, perm)
    ensures Leaves(t0, SetEntry(t, L1Of(t0, pt, a0), L1PageIndex(a0), v), pt, v0, sz, lo, hi, pages, calls, perm)
  {
    var t' := SetEntry(t, L1Of(t0, pt, a0), L1PageIndex(a0), v);
    forall a: U64 | InRange(a, v0, sz) && lo <= a < hi
      ensures Entry(t', L1Of(t0, pt, a), L1PageIndex(a)) == Entry(t, L1Of(t0, pt, a), L1PageIndex(a))
    {
      assert a != a0;
    }
  }

  /** The leaves of `[lo, a0)` and the leaf of page `a0` are the leaves of
      `[lo, a0 + PAGESIZE)`. */
  lemma LeavesExtend(t0: Tables, t: Tables, pt: U64, v0: U64, sz: nat, lo: int,
                     pages: seq<U64>, calls: nat, perm: int, a0: U64)
    requires InRange(a0, v0, sz) && lo <= a0 && 0 <= perm < PAGESIZE
    requires Leaves(t0, t, pt, v0, sz, lo, a0, pages, calls, perm)
    requires var x := FrameOf(pages, calls, v0, a0);
      && x % PAGESIZE == 0 && x + PAGESIZE <= MEMSIZE_PHYSICAL
      && Entry(t, L1Of(t0, pt, a0), L1PageIndex(a0)) == MakePte(x, perm)
    ensures Leaves(t0, t, pt, v0, sz, lo, a0 + PAGESIZE, pages, calls, perm)
  {
    forall a: U64 | InRange(a, v0, sz) && a0 <= a < a0 + PAGESIZE
      ensures a == a0
    {
      OnePageAt(a, a0, v0, sz);
    }
  }

  /** Writing page `a0`'s leaf with its `palloc` page extends the leaves of
      `[lo, a0)` to `[lo, a0 + PAGESIZE)`. */
  lemma LeavesGrow(t0: Tables, t: Tables, pt: U64, v0: U64, sz: nat, lo: int,
                   pages: seq<U64>, calls: nat, perm: int, a0: U64)
    requires DistinctSlots(t0, pt, v0, sz) && InRange(a0, v0, sz) && lo <= a0 && 0 <= perm < PAGESIZE
    requires Leaves(t0, t, pt, v0, sz, lo, a0, pages, calls, perm)
    requires FrameOf(pages, calls, v0, a0) % PAGESIZE == 0
    requires FrameOf(pages, calls, v0, a0) + PAGESIZE <= MEMSIZE_PHYSICAL
    ensures Leaves(t0, SetEntry(t, L1Of(t0, pt, a0), L1PageIndex(a0), MakePte(FrameOf(pages, calls, v0, a0), perm)),
                   pt, v0, sz, lo, a0 + PAGESIZE, pages, calls, perm)
  {
    var t' := SetEntry(t, L1Of(t0, pt, a0), L1PageIndex(a0), MakePte(FrameOf(pages, calls, v0, a0), perm));
    LeavesKept(t0, t, pt, v0, sz, lo, a0, pages, calls, perm, a0, MakePte(FrameOf(pages, calls, v0, a0), perm));
    LeavesExtend(t0, t', pt, v0, sz, lo, pages, calls, perm, a0);
  }

  // ---------------------------------------------------------------- loop rules

  /** A page step of the allocation loop that returns 0 without passing the
      top of the address space carries `inv` from page `a` after `c` calls
      of `palloc` to the next page after `c + 1`. */
  predicate AllocAdvances(m: MapResult, inv: (Tables, U64, nat) -> bool, a: U64, c: nat)
  {
    match m
    case MapPanic => true
    case MapDone(code, t') => code >= 0 && a + PAGESIZE < TWO_64 ==> inv(t', a + PAGESIZE, c + 1)
  }

  /** The rule of the allocation loop: an invariant that holds at the start,
      that every page step carries on, and that gives `done` once the loop
      has passed `endMem`, gives `done` for the tables of a completed loop,
      whatever the map. */
  lemma {:induction false} AllocateWithKeeps(mapPage: (Tables, U64, U64) -> MapResult, inv: (Tables, U64, nat) -> bool,
                                             done: Tables -> bool, t: Tables, addr: U64, endMem: U64,
                                             pages: seq<U64>, calls: nat)
    requires inv(t, addr, calls)
    requires forall t': Tables, a: U64, c: nat | inv(t', a, c) && a >= endMem :: done(t')
    requires forall t': Tables, a: U64, c: nat | inv(t', a, c) && a < endMem && Palloc(pages, c) != 0 ::
      AllocAdvances(mapPage(t', a, Palloc(pages, c)), inv, a, c)
    ensures var r := AllocateWith(mapPage, t, addr, endMem, pages, calls);
      r.Allocated? ==> done(r.tables)
    decreases TWO_64 - addr
  {
    if addr < endMem && Palloc(pages, calls) != 0 {
      match mapPage(t, addr, Palloc(pages, calls))
      case MapPanic =>
      case MapDone(code, t') =>
        if code >= 0 && addr + PAGESIZE < TWO_64 {
          AllocateWithKeeps(mapPage, inv, done, t', addr + PAGESIZE, endMem, pages, calls + 1);
        }
    }
  }

  /** A page step of the write-protection loop that does not pass the top of
      the address space carries `inv` from page `a` to the next page. */
  predicate RemapAdvances(m: MapResult, inv: (Tables, U64) -> bool, a: U64)
  {
    match m
    case MapPanic => true
    case MapDone(_, t') => a + PAGESIZE < TWO_64 ==> inv(t', a + PAGESIZE)
  }

  /** The rule of the write-protection loop, as `AllocateWithKeeps`. */
  lemma {:induction false} RemapWithKeeps(remapPage: (Tables, U64) -> MapResult, inv: (Tables, U64) -> bool,
                                          done: Tables -> bool, t: Tables, addr: U64, endMem: U64)
    requires inv(t, addr)
    requires forall t': Tables, a: U64 | inv(t', a) && a >= endMem :: done(t')
    requires forall t': Tables, a: U64 | inv(t', a) && a < endMem :: RemapAdvances(remapPage(t', a), inv, a)
    ensures var r := RemapWith(remapPage, t, addr, endMem);
      r.Some? ==> done(r.value)
    decreases TWO_64 - addr
  {
    if addr < endMem {
      match remapPage(t, addr)
      case MapPanic =>
      case MapDone(_, t') =>
        if addr + PAGESIZE < TWO_64 {
          RemapWithKeeps(remapPage, inv, done, t', addr + PAGESIZE, endMem);
        }
    }
  }

  // ---------------------------------------------------------------- the loops

  /** The per-page calls of the two loops, with the model's page calls. */
  lemma PageCalls(k: KernelAddresses, pt: U64, t: Tables, addr: U64, pa: U64)
    ensures MapUserPage(KernelVm(k), pt)(t, addr, pa) == VirtualMemoryMap(t, pt, addr, pa, PAGESIZE, PTE_PWU)
    ensures RemapUserPage(KernelVm(k), pt)(t, addr)
         == VirtualMemoryMap(t, pt, addr, VirtualMemoryLookup(t, pt, addr).pa, PAGESIZE, PTE_P + PTE_U)
  {
  }

  /** A loop that has passed `endMem` has passed every page of the range. */
  lemma LeavesToEnd(t0: Tables, t: Tables, pt: U64, v0: U64, sz: nat, addr: int, endMem: int,
                    pages: seq<U64>, calls: nat, perm: int)
    requires sz == Steps(v0, endMem) * PAGESIZE && endMem <= addr
    requires Leaves(t0, t, pt, v0, sz, v0, addr, pages, calls, perm)
    ensures Leaves(t0, t, pt, v0, sz, v0, v0 + sz, pages, calls, perm)
  {
    forall a: U64 | InRange(a, v0, sz)
      ensures a < addr
    {
      PageBelowEnd(a, v0, endMem);
    }
  }

  /** `addr` is a page step of the loop over `[v0, endMem)`, whose pages
      span `sz` bytes. */
  predicate LoopAt(v0: U64, sz: nat, addr: int, endMem: int)
  {
    sz == Steps(v0, endMem) * PAGESIZE && v0 <= addr && (addr - v0) % PAGESIZE == 0
  }

  /** The allocation loop's invariant at `addr`: only leaf slots of the range
      changed, and the pages before `addr` have their `palloc` page `P|W|U`. */
  predicate AllocInv(t0: Tables, t: Tables, pt: U64, v0: U64, sz: nat, addr: int, pages: seq<U64>, calls0: nat)
  {
    Touched(t0, t, pt, v0, sz) && Leaves(t0, t, pt, v0, sz, v0, addr, pages, calls0, PTE_PWU)
  }

  /** The write-protection loop's invariant at `addr`: only leaf slots of the
      range changed, the pages before `addr` are `P|U` and the rest still
      `P|W|U`, all on their `palloc` pages. */
  predicate RemapInv(t0: Tables, t: Tables, pt: U64, v0: U64, sz: nat, addr: int, pages: seq<U64>, calls0: nat)
  {
    && Touched(t0, t, pt, v0, sz)
    && Leaves(t0, t, pt, v0, sz, v0, addr, pages, calls0, PTE_P + PTE_U)
    && Leaves(t0, t, pt, v0, sz, addr, v0 + sz, pages, calls0, PTE_PWU)
  }

  /** Everything the allocation loop knows at `addr` after `calls` calls of
      `palloc`, the first being call `calls0`. */
  predicate AllocAt(t0: Tables, t: Tables, pt: U64, v0: U64, sz: nat, addr: int, endMem: int,
                    pages: seq<U64>, calls0: nat, calls: nat)
  {
    && Ready(t0, pt, v0, sz) && DistinctSlots(t0, pt, v0, sz) && LoopAt(v0, sz, addr, endMem)
    && calls == calls0 + (addr - v0) / PAGESIZE
    && AllocInv(t0, t, pt, v0, sz, addr, pages, calls0)
  }

  /** Everything the write-protection loop knows at `addr`. */
  predicate RemapAt(t0: Tables, t: Tables, pt: U64, v0: U64, sz: nat, addr: int, endMem: int,
                    pages: seq<U64>, calls0: nat)
  {
    && Ready(t0, pt, v0, sz) && DistinctSlots(t0, pt, v0, sz) && LoopAt(v0, sz, addr, endMem)
    && RemapInv(t0, t, pt, v0, sz, addr, pages, calls0)
  }

  /** `AllocAt` as the allocation loop's rule takes it. */
  function AllocState(t0: Tables, pt: U64, v0: U64, sz: nat, endMem: U64, pages: seq<U64>, calls0: nat)
    : (Tables, U64, nat) -> bool
  {
    (t: Tables, a: U64, c: nat) => AllocAt(t0, t, pt, v0, sz, a, endMem, pages, calls0, c)
  }

  /** `RemapAt` as the write-protection loop's rule takes it. */
  function RemapState(t0: Tables, pt: U64, v0: U64, sz: nat, endMem: U64, pages: seq<U64>, calls0: nat)
    : (Tables, U64) -> bool
  {
    (t: Tables, a: U64) => RemapAt(t0, t, pt, v0, sz, a, endMem, pages, calls0)
  }

  /** One step of the allocation loop: page `addr` gets `palloc`'s page
      `pa`, `P|W|U`. */
  lemma AllocStep(t0: Tables, t: Tables, pt: U64, v0: U64, sz: nat, addr: U64, endMem: U64,
                  pages: seq<U64>, calls0: nat, calls: nat) returns (t': Tables)
    requires AllocAt(t0, t, pt, v0, sz, addr, endMem, pages, calls0, calls) && addr < endMem
    requires MapArgumentsOk(pt, addr, Palloc(pages, calls), PAGESIZE, PTE_PWU)
    ensures VirtualMemoryMap(t, pt, addr, Palloc(pages, calls), PAGESIZE, PTE_PWU) == MapDone(0, t')
    ensures addr + PAGESIZE < TWO_64
    ensures AllocAt(t0, t', pt, v0, sz, addr + PAGESIZE, endMem, pages, calls0, calls + 1)
  {
    AddrInRange(addr, v0, endMem);
    NextPageCount(addr, v0);
    var pa := Palloc(pages, calls);
    assert pa == FrameOf(pages, calls0, v0, addr);
    MapOnePage(t0, t, pt, v0, sz, addr, pa, PTE_PWU);
    t' := SetEntry(t, L1Of(t0, pt, addr), L1PageIndex(addr), MakePte(pa, PTE_PWU));
    LeavesGrow(t0, t, pt, v0, sz, v0, pages, calls0, PTE_PWU, addr);
  }

  /** The allocation loop's page step, `virtual_memory_map` of one page
      `P|W|U`, keeps `AllocAt`. */
  lemma AllocAdvancesMap(t0: Tables, t: Tables, pt: U64, v0: U64, sz: nat, addr: U64, endMem: U64,
                         pages: seq<U64>, calls0: nat, calls: nat)
    requires AllocAt(t0, t, pt, v0, sz, addr, endMem, pages, calls0, calls) && addr < endMem
    ensures AllocAdvances(VirtualMemoryMap(t, pt, addr, Palloc(pages, calls), PAGESIZE, PTE_PWU),
                          AllocState(t0, pt, v0, sz, endMem, pages, calls0), addr, calls)
  {
    if MapArgumentsOk(pt, addr, Palloc(pages, calls), PAGESIZE, PTE_PWU) {
      var t' := AllocStep(t0, t, pt, v0, sz, addr, endMem, pages, calls0, calls);
      assert AllocState(t0, pt, v0, sz, endMem, pages, calls0)(t', addr + PAGESIZE, calls + 1);
    }
  }

  /** The allocation loop's page step with the model's map keeps `AllocAt`. */
  lemma AllocStepKeeps(k: KernelAddresses, t0: Tables, t: Tables, pt: U64, v0: U64, sz: nat, addr: U64, endMem: U64,
                       pages: seq<U64>, calls0: nat, calls: nat)
    requires AllocAt(t0, t, pt, v0, sz, addr, endMem, pages, calls0, calls) && addr < endMem
    ensures AllocAdvances(MapUserPage(KernelVm(k), pt)(t, addr, Palloc(pages, calls)),
                          AllocState(t0, pt, v0, sz, endMem, pages, calls0), addr, calls)
  {
    PageCalls(k, pt, t, addr, Palloc(pages, calls));
    AllocAdvancesMap(t0, t, pt, v0, sz, addr, endMem, pages, calls0, calls);
  }

  /** The allocation loop with the model's map: once it completes, every
      page of the range has its `palloc` page `P|W|U`, and only leaf slots
      of the range have changed. */
  lemma AllocateMaps(k: KernelAddresses, t0: Tables, pt: U64, v0: U64, sz: nat, endMem: U64, pages: seq<U64>, calls: nat)
    requires Ready(t0, pt, v0, sz) && DistinctSlots(t0, pt, v0, sz) && LoopAt(v0, sz, v0, endMem)
    ensures var r := AllocatePages(KernelVm(k), t0, pt, v0, endMem, pages, calls);
      r.Allocated? ==> AllocInv(t0, r.tables, pt, v0, sz, v0 + sz, pages, calls)
  {
    var inv := AllocState(t0, pt, v0, sz, endMem, pages, calls);
    var done := (t: Tables) => AllocInv(t0, t, pt, v0, sz, v0 + sz, pages, calls);
    StartLeaves(t0, pt, v0, sz, pages, calls);
    assert inv(t0, v0, calls);
    forall t: Tables, a: U64, c: nat | inv(t, a, c) && a >= endMem
      ensures done(t)
    {
      LeavesToEnd(t0, t, pt, v0, sz, a, endMem, pages, calls, PTE_PWU);
    }
    forall t: Tables, a: U64, c: nat | inv(t, a, c) && a < endMem && Palloc(pages, c) != 0
      ensures AllocAdvances(MapUserPage(KernelVm(k), pt)(t, a, Palloc(pages, c)), inv, a, c)
    {
      AllocStepKeeps(k, t0, t, pt, v0, sz, a, endMem, pages, calls, c);
    }
    AllocateWithKeeps(MapUserPage(KernelVm(k), pt), inv, done, t0, v0, endMem, pages, calls);
  }

  /** One step of the write-protection loop: page `addr`, which looks up to
      its `palloc` page, is mapped to that page again `P|U`. */
  lemma RemapStep(t0: Tables, t: Tables, pt: U64, v0: U64, sz: nat, addr: U64, endMem: U64,
                  pages: seq<U64>, calls0: nat) returns (t': Tables)
    requires RemapAt(t0, t, pt, v0, sz, addr, endMem, pages, calls0) && addr < endMem
    ensures VirtualMemoryMap(t, pt, addr, VirtualMemoryLookup(t, pt, addr).pa, PAGESIZE, PTE_P + PTE_U) == MapDone(0, t')
    ensures addr + PAGESIZE < TWO_64
    ensures RemapAt(t0, t', pt, v0, sz, addr + PAGESIZE, endMem, pages, calls0)
  {
    AddrInRange(addr, v0, endMem);
    NextPageCount(addr, v0);
    var x := FrameOf(pages, calls0, v0, addr);
    assert Entry(t, L1Of(t0, pt, addr), L1PageIndex(addr)) == MakePte(x, PTE_PWU);
    TouchedOnly(t0, t, pt, v0, sz);
    LeafLooksUp(t0, t, pt, v0, sz, addr, x, PTE_PWU);
    MapOnePage(t0, t, pt, v0, sz, addr, x, PTE_P + PTE_U);
    t' := SetEntry(t, L1Of(t0, pt, addr), L1PageIndex(addr), MakePte(x, PTE_P + PTE_U));
    LeavesGrow(t0, t, pt, v0, sz, v0, pages, calls0, PTE_P + PTE_U, addr);
    LeavesNarrow(t0, t, pt, v0, sz, addr, v0 + sz, pages, calls0, PTE_PWU);
    LeavesKept(t0, t, pt, v0, sz, addr + PAGESIZE, v0 + sz, pages, calls0, PTE_PWU, addr, MakePte(x, PTE_P + PTE_U));
  }

  /** The leaves of `[lo, hi)` include those of `[lo + PAGESIZE, hi)`. */
  lemma LeavesNarrow(t0: Tables, t: Tables, pt: U64, v0: U64, sz: nat, lo: int, hi: int,
                     pages: seq<U64>, calls: nat, perm: int)
    requires Leaves(t0, t, pt, v0, sz, lo, hi, pages, calls, perm)
    ensures Leaves(t0, t, pt, v0, sz, lo + PAGESIZE, hi, pages, calls, perm)
  {
  }

  /** The write-protection loop's page step with the model's map and lookup
      keeps `RemapAt`. */
  lemma RemapStepKeeps(k: KernelAddresses, t0: Tables, t: Tables, pt: U64, v0: U64, sz: nat, addr: U64, endMem: U64,
                       pages: seq<U64>, calls0: nat)
    requires RemapAt(t0, t, pt, v0, sz, addr, endMem, pages, calls0) && addr < endMem
    ensures RemapAdvances(RemapUserPage(KernelVm(k), pt)(t, addr), RemapState(t0, pt, v0, sz, endMem, pages, calls0), addr)
  {
    var t' := RemapStep(t0, t, pt, v0, sz, addr, endMem, pages, calls0);
    PageCalls(k, pt, t, addr, 0);
    assert RemapUserPage(KernelVm(k), pt)(t, addr) == MapDone(0, t');
    assert RemapState(t0, pt, v0, sz, endMem, pages, calls0)(t', addr + PAGESIZE);
  }

  /** The write-protection loop with the model's map and lookup: once it
      completes, every page of the range has its `palloc` page `P|U`, and
      still only leaf slots of the range have changed. */
  lemma RemapMaps(k: KernelAddresses, t0: Tables, t: Tables, pt: U64, v0: U64, sz: nat, endMem: U64,
                  pages: seq<U64>, calls0: nat)
    requires RemapAt(t0, t, pt, v0, sz, v0, endMem, pages, calls0)
    ensures var r := RemapReadOnly(KernelVm(k), t, pt, v0, endMem);
      r.Some? ==> RemapInv(t0, r.value, pt, v0, sz, v0 + sz, pages, calls0)
  {
    var inv := RemapState(t0, pt, v0, sz, endMem, pages, calls0);
    var done := (t': Tables) => RemapInv(t0, t', pt, v0, sz, v0 + sz, pages, calls0);
    assert inv(t, v0);
    forall t': Tables, a: U64 | inv(t', a) && a >= endMem
      ensures done(t')
    {
      LeavesToEnd(t0, t', pt, v0, sz, a, endMem, pages, calls0, PTE_P + PTE_U);
    }
    forall t': Tables, a: U64 | inv(t', a) && a < endMem
      ensures RemapAdvances(RemapUserPage(KernelVm(k), pt)(t', a), inv, a)
    {
      RemapStepKeeps(k, t0, t', pt, v0, sz, a, endMem, pages, calls0);
    }
    RemapWithKeeps(RemapUserPage(KernelVm(k), pt), inv, done, t, v0, endMem);
  }

  /** Leaves installed with `perm` over the whole range make every page look
      up to its `palloc` page with `perm`. */
  lemma RangeLooksUp(t0: Tables, t: Tables, pt: U64, v0: U64, sz: nat, pages: seq<U64>, calls: nat, perm: int)
    requires Ready(t0, pt, v0, sz) && OnlyLeafSlots(t0, t, pt, v0, sz, PTE_PWU)
    requires perm == PTE_PWU || perm == PTE_P + PTE_U
    requires Leaves(t0, t, pt, v0, sz, v0, v0 + sz, pages, calls, perm)
    ensures forall a: U64 {:trigger InRange(a, v0, sz)} | InRange(a, v0, sz) ::
      var x := FrameOf(pages, calls, v0, a);
      VirtualMemoryLookup(t, pt, a) == VAMapping(PageNumber(x), x, perm)
  {
    forall a: U64 | InRange(a, v0, sz)
      ensures var x := FrameOf(pages, calls, v0, a);
        VirtualMemoryLookup(t, pt, a) == VAMapping(PageNumber(x), x, perm)
    {
      LeafLooksUp(t0, t, pt, v0, sz, a, FrameOf(pages, calls, v0, a), perm);
    }
  }

  /** What `program_load_segment` does after a complete allocation, with the
      model's calls: the tables it keeps have every page's leaf with the
      segment's permission. */
  lemma FinishMaps(k: KernelAddresses, t0: Tables, t: Tables, pt: U64, ph: ElfProgram, v0: U64, endMem: U64,
                   sz: nat, pages: seq<U64>, calls: nat)
    requires Ready(t0, pt, v0, sz) && DistinctSlots(t0, pt, v0, sz) && LoopAt(v0, sz, v0, endMem)
    requires AllocInv(t0, t, pt, v0, sz, v0 + sz, pages, calls)
    ensures var f := FinishSegment(KernelVm(k), t, pt, ph, v0, endMem);
      f.Some? ==>
        Touched(t0, f.value, pt, v0, sz)
        && Leaves(t0, f.value, pt, v0, sz, v0, v0 + sz, pages, calls, SegmentPerm(ph))
  {
    if !IsWritableSegment(ph) {
      assert Leaves(t0, t, pt, v0, sz, v0, v0, pages, calls, PTE_P + PTE_U);
      RemapMaps(k, t0, t, pt, v0, sz, endMem, pages, calls);
    }
  }

  /** Before the loops nothing has changed and no page has a leaf yet. */
  lemma StartLeaves(t0: Tables, pt: U64, v0: U64, sz: nat, pages: seq<U64>, calls: nat)
    ensures AllocInv(t0, t0, pt, v0, sz, v0, pages, calls)
    ensures (v0 - v0) / PAGESIZE == 0
  {
  }
}
