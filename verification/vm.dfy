/** `virtual_memory_map` (vm.rs) and `virtual_memory_init` / `set_pagetable`
    (vm.c): installing leaf entries through existing tables. */
module VirtualMemory {
  import opened X86
  import opened Layout
  import opened PageTables

  /** Virtual addresses below 2^47, the lower half of the canonical x86-64
      address space where every mapping of the kernel lives. */
  const LOWER_HALF: nat := 0x8000_0000_0000

  const LARGE_PAGE: nat := 0x20_0000

  /** `(va >> (PAGEOFFBITS + PAGEINDEXBITS)) as i32`: the key on which
      `virtual_memory_map` decides whether to look the level-1 table up again. */
  function RegionKey(va: U64): I32
  {
    ToI32(va / LARGE_PAGE)
  }

  /** The outcome of `virtual_memory_map`: a panic from one of its assertions
      (or from `lookup_l1pagetable`'s), or the return code with the tables. */
  datatype MapResult = MapPanic | MapDone(code: int, tables: Tables)

  /** The sanity assertions of `virtual_memory_map`, with `usize` arithmetic
      wrapping: `va + sz` may wrap only to exactly 0. */
  predicate MapArgumentsOk(pagetable: U64, va: U64, pa: U64, sz: U64, perm: int)
  {
    && va % 4096 == 0
    && sz % 4096 == 0
    && va + sz <= TWO_64
    && (IsPresent(perm) ==> pa % 4096 == 0 && pa + sz <= MEMSIZE_PHYSICAL)
    && 0 <= perm < 0x1000
    && pagetable % 4096 == 0
  }

  /** The per-page loop of `virtual_memory_map`. `last` and `l1` are
      `last_index123` and `l1pagetable`; `l1 == 0` is NULL. It returns 0 or
      -1, and -1 only for a present mapping that finds no level-1 table. */
  function MapLoop(t: Tables, pt: U64, va: U64, pa: U64, sz: U64, perm: int, last: I32, l1: U64): (r: MapResult)
    requires sz % 4096 == 0 && 0 <= perm < 0x1000
    requires IsPresent(perm) ==> pa % 4096 == 0
    ensures r.MapDone? ==> r.code == 0 || r.code == -1
    ensures r.MapDone? && r.code == -1 ==> IsPresent(perm) && sz > 0
    decreases sz
  {
    if sz == 0 then MapDone(0, t)
    else
      var cur := RegionKey(va);
      var found := if cur != last then LookupL1(t, pt, va, perm) else L1Ptr(l1);
      if found.L1Panic? then MapPanic
      else
        var table := found.addr;
        SizeStep(sz);
        var nextVa, nextPa := NextAddr(va), NextAddr(pa);
        if table != 0 then
          var t' := SetEntry(t, table, L1PageIndex(va), LeafEntry(pa, perm));
          MapLoop(t', pt, nextVa, nextPa, sz - PAGESIZE, perm, cur, table)
        else if IsPresent(perm) then MapDone(-1, t)
        else MapLoop(t, pt, nextVa, nextPa, sz - PAGESIZE, perm, cur, table)
  }

  /** The leaf entry stored for a page: `pa | perm` when `perm` has P,
      `0 | perm` otherwise. */
  function LeafEntry(pa: U64, perm: int): U64
    requires 0 <= perm < 0x1000
    requires IsPresent(perm) ==> pa % 4096 == 0
  {
    if IsPresent(perm) then MakePte(pa, perm) else MakePte(0, perm)
  }

  /** A non-zero multiple of the page size is at least a page, and one page
      less is still a multiple. */
  lemma SizeStep(sz: nat)
    requires sz % 4096 == 0 && sz != 0
    ensures sz >= 4096 && (sz - 4096) % 4096 == 0
  {
  }

  /** `x + PAGESIZE` in wrapping `usize` arithmetic; it keeps a page-aligned
      address aligned. */
  function NextAddr(x: U64): (r: U64)
    ensures x % 4096 == 0 ==> r % 4096 == 0
    ensures x + PAGESIZE < TWO_64 ==> r == x + PAGESIZE
  {
    (x + PAGESIZE) % TWO_64
  }

  /** `virtual_memory_map(pagetable, va, pa, sz, perm)`: maps each page of
      `[va, va + sz)` to the matching page from `pa` with `perm`, through the
      level-1 tables that already exist. */
  function VirtualMemoryMap(t: Tables, pagetable: U64, va: U64, pa: U64, sz: U64, perm: int): (r: MapResult)
    ensures !r.MapPanic? ==> MapArgumentsOk(pagetable, va, pa, sz, perm)
    ensures MapArgumentsOk(pagetable, va, pa, sz, perm) && sz == 0 ==> r == MapDone(0, t)
  {
    if !MapArgumentsOk(pagetable, va, pa, sz, perm) then MapPanic
    else MapLoop(t, pagetable, va, pa, sz, perm, -1, 0)
  }

  // ---------------------------------------------------------------- the effect of the loop

  /** `a` is one of the pages of `[va, va + sz)`. */
  predicate InRange(a: int, va: int, sz: int)
  {
    va <= a < va + sz && (a - va) % 4096 == 0
  }

  /** The walks of the pages of the range do not interfere with the writes:
      no level-1 table found for a page is an upper table of a page, and no
      two pages share a leaf slot. */
  predicate Separated(t: Tables, pt: U64, va: nat, sz: nat, perm: int)
  {
    && (forall a: U64, b: U64 {:trigger InRange(a, va, sz), InRange(b, va, sz)}
          | InRange(a, va, sz) && InRange(b, va, sz)
          && LookupL1(t, pt, a, perm).L1Ptr? && LookupL1(t, pt, a, perm).addr != 0 ::
          LookupL1(t, pt, a, perm).addr !in UpperTables(t, pt, b))
    && (forall a: U64, b: U64 {:trigger InRange(a, va, sz), InRange(b, va, sz)}
          | InRange(a, va, sz) && InRange(b, va, sz) && a != b
          && LookupL1(t, pt, a, perm).L1Ptr? && LookupL1(t, pt, b, perm).L1Ptr?
          && LookupL1(t, pt, a, perm).addr != 0 ::
          LookupL1(t, pt, a, perm).addr != LookupL1(t, pt, b, perm).addr || L1PageIndex(a) != L1PageIndex(b))
  }

  /** No page of the range makes `lookup_l1pagetable` panic. */
  predicate Walkable(t: Tables, pt: U64, va: nat, sz: nat, perm: int)
  {
    forall a: U64 {:trigger InRange(a, va, sz)} | InRange(a, va, sz) :: LookupL1(t, pt, a, perm).L1Ptr?
  }

  /** The entry the loop stores for page `a`: `pa + (a - va)` with `perm`, or
      address 0 with `perm` when `perm` lacks P. */
  function LeafValue(va: int, pa: int, perm: int, a: int): int
  {
    if IsPresent(perm) then pa + (a - va) + perm else perm
  }

  /** `a` has a level-1 table: `lookup_l1pagetable` neither panics nor gives NULL. */
  predicate HasL1(t: Tables, pt: U64, a: U64, perm: int)
  {
    LookupL1(t, pt, a, perm).L1Ptr? && LookupL1(t, pt, a, perm).addr != 0
  }

  /** Some page of the range has no level-1 table. */
  predicate MissingL1(t: Tables, pt: U64, va: nat, sz: nat, perm: int)
  {
    exists a: U64 {:trigger InRange(a, va, sz)} | InRange(a, va, sz) :: LookupL1(t, pt, a, perm) == L1Ptr(0)
  }

  /** Every page of the range below `a` has a level-1 table. */
  predicate NoMissingBefore(t: Tables, pt: U64, va: nat, sz: nat, a: U64, perm: int)
  {
    forall b: U64 {:trigger InRange(b, va, sz)} | InRange(b, va, sz) && b < a :: LookupL1(t, pt, b, perm) != L1Ptr(0)
  }

  /** In `t'`, the leaf slot of every page of the range that the loop reaches
      holds `LeafValue`: all of them when `perm` lacks P, otherwise those
      before the first page without a level-1 table. Walks are those of `t`. */
  predicate Installed(t: Tables, t': Tables, pt: U64, va: nat, pa: U64, sz: nat, perm: int)
  {
    forall a: U64 {:trigger InRange(a, va, sz)} | InRange(a, va, sz) && HasL1(t, pt, a, perm)
        && (IsPresent(perm) ==> NoMissingBefore(t, pt, va, sz, a, perm)) ::
      Entry(t', LookupL1(t, pt, a, perm).addr, L1PageIndex(a)) == LeafValue(va, pa, perm, a)
  }

  /** Every entry that differs between `t` and `t'` is the leaf slot of a page
      of the range in its level-1 table. */
  predicate OnlyLeafSlots(t: Tables, t': Tables, pt: U64, va: nat, sz: nat, perm: int)
  {
    forall tb: U64, i: nat {:trigger Entry(t', tb, i)} | i < NPAGETABLEENTRIES && Entry(t', tb, i) != Entry(t, tb, i) ::
      exists a: U64 {:trigger InRange(a, va, sz)} | InRange(a, va, sz) && HasL1(t, pt, a, perm) ::
        LookupL1(t, pt, a, perm).addr == tb && L1PageIndex(a) == i
  }

  /** `lookup_l1pagetable` finds the same for every page of the range in `t`
      and `t'`. */
  predicate SameL1(t: Tables, t': Tables, pt: U64, va: nat, sz: nat, perm: int)
  {
    forall b: U64 {:trigger InRange(b, va, sz)} | InRange(b, va, sz) ::
      LookupL1(t', pt, b, perm) == LookupL1(t, pt, b, perm)
  }

  /** The upper walks of the pages of the range agree in `t` and `t'`. */
  predicate SameWalks(t: Tables, t': Tables, pt: U64, va: nat, sz: nat, perm: int)
  {
    forall b: U64 {:trigger InRange(b, va, sz)} | InRange(b, va, sz) ::
      LookupL1(t', pt, b, perm) == LookupL1(t, pt, b, perm)
      && UpperTables(t', pt, b) == UpperTables(t, pt, b)
  }

  /** A page of the rest of a range is a page of the range. */
  lemma RangeShrink(a: int, va: int, sz: int)
    requires InRange(a, va + PAGESIZE, sz - PAGESIZE)
    ensures InRange(a, va, sz)
  {
    assert (a - (va + PAGESIZE)) % 4096 == (a - va) % 4096;
  }

  /** A page of a range is its first page or a page of the rest. */
  lemma RangeSplit(a: int, va: int, sz: int)
    requires sz % 4096 == 0 && InRange(a, va, sz)
    ensures a == va || InRange(a, va + PAGESIZE, sz - PAGESIZE)
  {
    if a != va {
      assert (a - (va + PAGESIZE)) % 4096 == (a - va) % 4096;
    }
  }

  /** The first page of a non-empty walkable range has no panicking walk. */
  lemma HeadWalkable(t: Tables, pt: U64, va: U64, sz: nat, perm: int)
    requires sz > 0 && Walkable(t, pt, va, sz, perm)
    ensures LookupL1(t, pt, va, perm).L1Ptr?
  {
    assert InRange(va, va, sz);
  }

  /** Below 2^47 the key `va >> 21` taken as `i32` names the 2 MiB region. */
  lemma RegionKeys(a: U64, b: U64)
    requires a < LOWER_HALF && b < LOWER_HALF
    ensures RegionKey(a) == RegionKey(b) <==> a / LARGE_PAGE == b / LARGE_PAGE
    ensures RegionKey(a) >= 0
  {
  }

  /** A write into the level-1 table of the first page of a separated range
      leaves the upper walks of every page of the range alone. */
  lemma WriteKeepsWalks(t: Tables, pt: U64, va: U64, sz: nat, perm: int, i: nat, v: U64)
    requires sz > 0 && HasL1(t, pt, va, perm) && Separated(t, pt, va, sz, perm)
    requires i < NPAGETABLEENTRIES
    ensures SameWalks(t, SetEntry(t, LookupL1(t, pt, va, perm).addr, i, v), pt, va, sz, perm)
  {
    assert InRange(va, va, sz);
    var tb := LookupL1(t, pt, va, perm).addr;
    forall b: U64 | InRange(b, va, sz)
      ensures LookupL1(SetEntry(t, tb, i, v), pt, b, perm) == LookupL1(t, pt, b, perm)
      ensures UpperTables(SetEntry(t, tb, i, v), pt, b) == UpperTables(t, pt, b)
    {
      assert tb !in UpperTables(t, pt, b);
      WriteOutsideUpper(t, pt, b, perm, tb, i, v);
    }
  }

  /** Walkability and separation carry over to tables with the same walks,
      restricted to the rest of the range. */
  lemma WalksCarry(t: Tables, t': Tables, pt: U64, va: U64, sz: nat, perm: int)
    requires va % 4096 == 0 && sz % 4096 == 0 && sz > 0
    requires SameWalks(t, t', pt, va, sz, perm)
    requires Walkable(t, pt, va, sz, perm) && Separated(t, pt, va, sz, perm)
    ensures Walkable(t', pt, va + PAGESIZE, sz - PAGESIZE, perm)
    ensures Separated(t', pt, va + PAGESIZE, sz - PAGESIZE, perm)
    ensures SameL1(t, t', pt, va + PAGESIZE, sz - PAGESIZE, perm)
  {
    var va', sz' := va + PAGESIZE, sz - PAGESIZE;
    forall a: U64 | InRange(a, va', sz')
      ensures LookupL1(t', pt, a, perm).L1Ptr?
      ensures LookupL1(t', pt, a, perm) == LookupL1(t, pt, a, perm)
    {
      RangeShrink(a, va, sz);
    }
    SeparatedCarries(t, t', pt, va, sz, perm);
  }

  lemma SeparatedCarries(t: Tables, t': Tables, pt: U64, va: U64, sz: nat, perm: int)
    requires va % 4096 == 0 && sz % 4096 == 0 && sz > 0
    requires SameWalks(t, t', pt, va, sz, perm) && Separated(t, pt, va, sz, perm)
    ensures Separated(t', pt, va + PAGESIZE, sz - PAGESIZE, perm)
  {
    var va', sz' := va + PAGESIZE, sz - PAGESIZE;
    forall a: U64, b: U64 | InRange(a, va', sz') && InRange(b, va', sz')
      ensures LookupL1(t', pt, a, perm).L1Ptr? && LookupL1(t', pt, a, perm).addr != 0 ==>
        LookupL1(t', pt, a, perm).addr !in UpperTables(t', pt, b)
      ensures (a != b && LookupL1(t', pt, a, perm).L1Ptr? && LookupL1(t', pt, b, perm).L1Ptr?
               && LookupL1(t', pt, a, perm).addr != 0) ==>
        LookupL1(t', pt, a, perm).addr != LookupL1(t', pt, b, perm).addr || L1PageIndex(a) != L1PageIndex(b)
    {
      RangeShrink(a, va, sz);
      RangeShrink(b, va, sz);
      SeparatedPair(t, t', pt, va, sz, perm, a, b);
    }
  }

  /** Two pages of a separated range stay separated in tables with the same
      walks. */
  lemma SeparatedPair(t: Tables, t': Tables, pt: U64, va: nat, sz: nat, perm: int, a: U64, b: U64)
    requires SameWalks(t, t', pt, va, sz, perm) && Separated(t, pt, va, sz, perm)
    requires InRange(a, va, sz) && InRange(b, va, sz)
    ensures LookupL1(t', pt, a, perm).L1Ptr? && LookupL1(t', pt, a, perm).addr != 0 ==>
      LookupL1(t', pt, a, perm).addr !in UpperTables(t', pt, b)
    ensures (a != b && LookupL1(t', pt, a, perm).L1Ptr? && LookupL1(t', pt, b, perm).L1Ptr?
             && LookupL1(t', pt, a, perm).addr != 0) ==>
      LookupL1(t', pt, a, perm).addr != LookupL1(t', pt, b, perm).addr || L1PageIndex(a) != L1PageIndex(b)
  {
  }

  /** What the map loop relies on from its caller: the argument checks, a
      range below 2^47 that is walkable and separated, and a cache that, when
      it claims the current region, holds that region's level-1 table. */
  predicate LoopReady(t: Tables, pt: U64, va: U64, pa: U64, sz: U64, perm: int, last: I32, l1: U64)
  {
    && sz % 4096 == 0 && 0 <= perm < 0x1000
    && (IsPresent(perm) ==> pa % 4096 == 0 && pa + sz <= MEMSIZE_PHYSICAL)
    && va % 4096 == 0 && va + sz <= LOWER_HALF
    && Walkable(t, pt, va, sz, perm) && Separated(t, pt, va, sz, perm)
    && (sz > 0 && last == RegionKey(va) ==> LookupL1(t, pt, va, perm) == L1Ptr(l1))
  }

  /** The effect of the map loop on tables `t`: it finishes; it fails (-1)
      exactly when `perm` has P and some page lacks a level-1 table; the pages
      it reaches get their leaf entry; nothing else changes. */
  predicate LoopEffect(t: Tables, pt: U64, va: nat, pa: U64, sz: nat, perm: int, r: MapResult)
  {
    && r.MapDone?
    && (r.code == 0 || r.code == -1)
    && (r.code == -1 <==> IsPresent(perm) && MissingL1(t, pt, va, sz, perm))
    && Installed(t, r.tables, pt, va, pa, sz, perm)
    && OnlyLeafSlots(t, r.tables, pt, va, sz, perm)
  }

  /** After the first page, the cache names the level-1 table of the next
      page whenever the next page is in the same 2 MiB region. */
  lemma CacheNext(t: Tables, t': Tables, pt: U64, va: U64, sz: nat, perm: int)
    requires va % 4096 == 0 && sz % 4096 == 0 && sz > 0 && va + sz <= LOWER_HALF
    requires SameWalks(t, t', pt, va, sz, perm)
    ensures sz - PAGESIZE > 0 && RegionKey(va + PAGESIZE) == RegionKey(va) ==>
      LookupL1(t', pt, va + PAGESIZE, perm) == LookupL1(t, pt, va, perm)
  {
    if sz - PAGESIZE > 0 && RegionKey(va + PAGESIZE) == RegionKey(va) {
      RegionKeys(va, va + PAGESIZE);
      SameRegionWalk(t, pt, va, va + PAGESIZE, perm);
      assert InRange(va + PAGESIZE, va, sz);
    }
  }

  /** The loop's outcome after writing the first page's leaf entry is the
      outcome claimed for the whole range. */
  lemma WriteStepEffect(t: Tables, t': Tables, pt: U64, va: U64, pa: U64, sz: U64, perm: int, r: MapResult)
    requires va % 4096 == 0 && sz % 4096 == 0 && sz > 0 && 0 <= perm < 0x1000
    requires IsPresent(perm) ==> pa % 4096 == 0 && pa + sz <= MEMSIZE_PHYSICAL
    requires HasL1(t, pt, va, perm) && Separated(t, pt, va, sz, perm)
    requires t' == SetEntry(t, LookupL1(t, pt, va, perm).addr, L1PageIndex(va), LeafEntry(pa, perm))
    requires SameL1(t, t', pt, va + PAGESIZE, sz - PAGESIZE, perm)
    requires LoopEffect(t', pt, va + PAGESIZE, NextAddr(pa), sz - PAGESIZE, perm, r)
    ensures LoopEffect(t, pt, va, pa, sz, perm, r)
  {
    MissingAfterFirst(t, t', pt, va, sz, perm);
    WriteStepInstalled(t, t', pt, va, pa, sz, perm, r.tables);
    WriteStepFrame(t, t', pt, va, sz, perm, r.tables);
  }

  /** A range whose first page has a level-1 table misses one exactly when
      the rest of it does. */
  lemma MissingAfterFirst(t: Tables, t': Tables, pt: U64, va: U64, sz: U64, perm: int)
    requires sz % 4096 == 0 && sz > 0
    requires LookupL1(t, pt, va, perm) != L1Ptr(0)
    requires SameL1(t, t', pt, va + PAGESIZE, sz - PAGESIZE, perm)
    ensures MissingL1(t, pt, va, sz, perm) == MissingL1(t', pt, va + PAGESIZE, sz - PAGESIZE, perm)
  {
    if MissingL1(t, pt, va, sz, perm) {
      var b: U64 :| InRange(b, va, sz) && LookupL1(t, pt, b, perm) == L1Ptr(0);
      RangeSplit(b, va, sz);
      assert InRange(b, va + PAGESIZE, sz - PAGESIZE) && LookupL1(t', pt, b, perm) == L1Ptr(0);
    }
    if MissingL1(t', pt, va + PAGESIZE, sz - PAGESIZE, perm) {
      var b: U64 :| InRange(b, va + PAGESIZE, sz - PAGESIZE) && LookupL1(t', pt, b, perm) == L1Ptr(0);
      RangeShrink(b, va, sz);
    }
  }

  lemma WriteStepInstalled(t: Tables, t': Tables, pt: U64, va: U64, pa: U64, sz: U64, perm: int, t'': Tables)
    requires va % 4096 == 0 && sz % 4096 == 0 && sz > 0 && 0 <= perm < 0x1000
    requires IsPresent(perm) ==> pa % 4096 == 0 && pa + sz <= MEMSIZE_PHYSICAL
    requires HasL1(t, pt, va, perm) && Separated(t, pt, va, sz, perm)
    requires t' == SetEntry(t, LookupL1(t, pt, va, perm).addr, L1PageIndex(va), LeafEntry(pa, perm))
    requires SameL1(t, t', pt, va + PAGESIZE, sz - PAGESIZE, perm)
    requires Installed(t', t'', pt, va + PAGESIZE, NextAddr(pa), sz - PAGESIZE, perm)
    requires OnlyLeafSlots(t', t'', pt, va + PAGESIZE, sz - PAGESIZE, perm)
    ensures Installed(t, t'', pt, va, pa, sz, perm)
  {
    forall a: U64 | InRange(a, va, sz) && HasL1(t, pt, a, perm)
        && (IsPresent(perm) ==> NoMissingBefore(t, pt, va, sz, a, perm))
      ensures Entry(t'', LookupL1(t, pt, a, perm).addr, L1PageIndex(a)) == LeafValue(va, pa, perm, a)
    {
      RangeSplit(a, va, sz);
      if a == va {
        FirstSlotKept(t, t', pt, va, sz, perm, t'');
        assert LeafEntry(pa, perm) == LeafValue(va, pa, perm, va);
      } else {
        LaterPageInstalled(t, t', pt, va, pa, sz, perm, t'', a);
      }
    }
  }

  /** A later page keeps the leaf value the rest of the loop gives it. */
  lemma LaterPageInstalled(t: Tables, t': Tables, pt: U64, va: U64, pa: U64, sz: U64, perm: int, t'': Tables, a: U64)
    requires va % 4096 == 0 && sz % 4096 == 0 && sz > 0
    requires IsPresent(perm) ==> pa + sz <= MEMSIZE_PHYSICAL
    requires InRange(a, va + PAGESIZE, sz - PAGESIZE) && HasL1(t, pt, a, perm)
    requires IsPresent(perm) ==> NoMissingBefore(t, pt, va, sz, a, perm)
    requires SameL1(t, t', pt, va + PAGESIZE, sz - PAGESIZE, perm)
    requires Installed(t', t'', pt, va + PAGESIZE, NextAddr(pa), sz - PAGESIZE, perm)
    ensures Entry(t'', LookupL1(t, pt, a, perm).addr, L1PageIndex(a)) == LeafValue(va, pa, perm, a)
  {
    var va', sz' := va + PAGESIZE, sz - PAGESIZE;
    if IsPresent(perm) {
      forall b: U64 | InRange(b, va', sz') && b < a
        ensures LookupL1(t', pt, b, perm) != L1Ptr(0)
      {
        RangeShrink(b, va, sz);
      }
    }
    assert HasL1(t', pt, a, perm);
    assert LeafValue(va', NextAddr(pa), perm, a) == LeafValue(va, pa, perm, a);
  }

  lemma WriteStepFrame(t: Tables, t': Tables, pt: U64, va: U64, sz: U64, perm: int, t'': Tables)
    requires sz % 4096 == 0 && sz > 0
    requires HasL1(t, pt, va, perm)
    requires exists v: U64 :: t' == SetEntry(t, LookupL1(t, pt, va, perm).addr, L1PageIndex(va), v)
    requires SameL1(t, t', pt, va + PAGESIZE, sz - PAGESIZE, perm)
    requires OnlyLeafSlots(t', t'', pt, va + PAGESIZE, sz - PAGESIZE, perm)
    ensures OnlyLeafSlots(t, t'', pt, va, sz, perm)
  {
    var table := LookupL1(t, pt, va, perm).addr;
    forall tb: U64, i: nat | i < NPAGETABLEENTRIES && Entry(t'', tb, i) != Entry(t, tb, i)
      ensures exists a: U64 | InRange(a, va, sz) && HasL1(t, pt, a, perm) ::
        LookupL1(t, pt, a, perm).addr == tb && L1PageIndex(a) == i
    {
      if Entry(t'', tb, i) != Entry(t', tb, i) {
        var a: U64 :| InRange(a, va + PAGESIZE, sz - PAGESIZE) && HasL1(t', pt, a, perm)
          && LookupL1(t', pt, a, perm).addr == tb && L1PageIndex(a) == i;
        RangeShrink(a, va, sz);
      } else {
        assert tb == table && i == L1PageIndex(va);
        assert InRange(va, va, sz);
      }
    }
  }

  /** The later pages of a separated range never write the first page's leaf
      slot. */
  lemma FirstSlotKept(t: Tables, t': Tables, pt: U64, va: U64, sz: nat, perm: int, t'': Tables)
    requires va % 4096 == 0 && sz % 4096 == 0 && sz > 0
    requires HasL1(t, pt, va, perm) && Separated(t, pt, va, sz, perm)
    requires SameL1(t, t', pt, va + PAGESIZE, sz - PAGESIZE, perm)
    requires OnlyLeafSlots(t', t'', pt, va + PAGESIZE, sz - PAGESIZE, perm)
    ensures Entry(t'', LookupL1(t, pt, va, perm).addr, L1PageIndex(va))
         == Entry(t', LookupL1(t, pt, va, perm).addr, L1PageIndex(va))
  {
    var tb, i := LookupL1(t, pt, va, perm).addr, L1PageIndex(va);
    if Entry(t'', tb, i) != Entry(t', tb, i) {
      var a: U64 :| InRange(a, va + PAGESIZE, sz - PAGESIZE) && HasL1(t', pt, a, perm)
        && LookupL1(t', pt, a, perm).addr == tb && L1PageIndex(a) == i;
      RangeShrink(a, va, sz);
      assert InRange(va, va, sz);
      assert false;
    }
  }

  /** With P requested, a first page without a level-1 table ends the loop
      with -1 and the tables as they are. */
  lemma MissingStepEffect(t: Tables, pt: U64, va: U64, pa: U64, sz: U64, perm: int)
    requires va % 4096 == 0 && sz % 4096 == 0 && sz > 0 && IsPresent(perm)
    requires LookupL1(t, pt, va, perm) == L1Ptr(0)
    ensures LoopEffect(t, pt, va, pa, sz, perm, MapDone(-1, t))
  {
    assert InRange(va, va, sz);
    forall a: U64 | InRange(a, va, sz) && HasL1(t, pt, a, perm)
      ensures !NoMissingBefore(t, pt, va, sz, a, perm)
    {
      assert va < a;
    }
  }

  /** Without P, a first page without a level-1 table is skipped: the rest
      of the loop's outcome is the outcome for the whole range. */
  lemma SkipStepEffect(t: Tables, pt: U64, va: U64, pa: U64, sz: U64, perm: int, r: MapResult)
    requires va % 4096 == 0 && sz % 4096 == 0 && sz > 0 && !IsPresent(perm)
    requires LookupL1(t, pt, va, perm) == L1Ptr(0)
    requires LoopEffect(t, pt, va + PAGESIZE, NextAddr(pa), sz - PAGESIZE, perm, r)
    ensures LoopEffect(t, pt, va, pa, sz, perm, r)
  {
    forall a: U64 | InRange(a, va, sz) && HasL1(t, pt, a, perm)
      ensures Entry(r.tables, LookupL1(t, pt, a, perm).addr, L1PageIndex(a)) == LeafValue(va, pa, perm, a)
    {
      RangeSplit(a, va, sz);
    }
    forall tb: U64, i: nat | i < NPAGETABLEENTRIES && Entry(r.tables, tb, i) != Entry(t, tb, i)
      ensures exists a: U64 | InRange(a, va, sz) && HasL1(t, pt, a, perm) ::
        LookupL1(t, pt, a, perm).addr == tb && L1PageIndex(a) == i
    {
      var a: U64 :| InRange(a, va + PAGESIZE, sz - PAGESIZE) && HasL1(t, pt, a, perm)
        && LookupL1(t, pt, a, perm).addr == tb && L1PageIndex(a) == i;
      RangeShrink(a, va, sz);
    }
  }

  /** A step that keeps the walks of the range leaves the loop ready for the
      rest of the range, with the cache holding the first page's table. */
  lemma ReadyNext(t: Tables, t': Tables, pt: U64, va: U64, pa: U64, sz: U64, perm: int, last: I32, l1: U64)
    requires LoopReady(t, pt, va, pa, sz, perm, last, l1) && sz > 0
    requires SameWalks(t, t', pt, va, sz, perm)
    ensures LookupL1(t, pt, va, perm).L1Ptr?
    ensures LoopReady(t', pt, va + PAGESIZE, NextAddr(pa), sz - PAGESIZE, perm,
                      RegionKey(va), LookupL1(t, pt, va, perm).addr)
    ensures SameL1(t, t', pt, va + PAGESIZE, sz - PAGESIZE, perm)
  {
    SizeStep(sz);
    HeadWalkable(t, pt, va, sz, perm);
    WalksCarry(t, t', pt, va, sz, perm);
    CacheNext(t, t', pt, va, sz, perm);
  }

  /** The map loop, started from a ready state, has `LoopEffect`. */
  lemma {:induction false} MapLoopEffect(t: Tables, pt: U64, va: U64, pa: U64, sz: U64, perm: int, last: I32, l1: U64)
    requires LoopReady(t, pt, va, pa, sz, perm, last, l1)
    ensures LoopEffect(t, pt, va, pa, sz, perm, MapLoop(t, pt, va, pa, sz, perm, last, l1))
    decreases sz, 3
  {
    if sz == 0 {
      return;
    }
    HeadWalkable(t, pt, va, sz, perm);
    var found := LookupL1(t, pt, va, perm);
    if found.addr != 0 {
      MapWriteStep(t, pt, va, pa, sz, perm, last, l1);
      MapLoopStep(t, pt, va, pa, sz, perm, last, l1);
    } else if IsPresent(perm) {
      MissingStepEffect(t, pt, va, pa, sz, perm);
      MapLoopStep(t, pt, va, pa, sz, perm, last, l1);
    } else {
      SizeStep(sz);
      ReadyNext(t, t, pt, va, pa, sz, perm, last, l1);
      MapLoopEffect(t, pt, va + PAGESIZE, NextAddr(pa), sz - PAGESIZE, perm, RegionKey(va), 0);
      MapLoopStep(t, pt, va, pa, sz, perm, last, l1);
      SkipStepEffect(t, pt, va, pa, sz, perm, MapLoop(t, pt, va + PAGESIZE, NextAddr(pa), sz - PAGESIZE, perm, RegionKey(va), 0));
    }
  }

  /** The write case of `MapLoopEffect`: the first page has a level-1 table. */
  lemma {:induction false} MapWriteStep(t: Tables, pt: U64, va: U64, pa: U64, sz: U64, perm: int, last: I32, l1: U64)
    requires LoopReady(t, pt, va, pa, sz, perm, last, l1) && sz > 0
    requires HasL1(t, pt, va, perm)
    ensures sz >= PAGESIZE && (sz - PAGESIZE) % 4096 == 0
    ensures var tb := LookupL1(t, pt, va, perm).addr;
      LoopEffect(t, pt, va, pa, sz, perm,
        MapLoop(SetEntry(t, tb, L1PageIndex(va), LeafEntry(pa, perm)), pt, NextAddr(va), NextAddr(pa),
                sz - PAGESIZE, perm, RegionKey(va), tb))
    decreases sz, 2
  {
    SizeStep(sz);
    var table := LookupL1(t, pt, va, perm).addr;
    var t' := SetEntry(t, table, L1PageIndex(va), LeafEntry(pa, perm));
    WriteReady(t, pt, va, pa, sz, perm, last, l1);
    MapWriteTail(t, t', pt, va, pa, sz, perm, table);
  }

  /** The rest of the range after the write, by induction. */
  lemma {:induction false} MapWriteTail(t: Tables, t': Tables, pt: U64, va: U64, pa: U64, sz: U64, perm: int, table: U64)
    requires sz % 4096 == 0 && sz >= PAGESIZE && 0 <= perm < 0x1000
    requires IsPresent(perm) ==> pa % 4096 == 0 && pa + sz <= MEMSIZE_PHYSICAL
    requires va % 4096 == 0 && va + sz <= LOWER_HALF
    requires HasL1(t, pt, va, perm) && Separated(t, pt, va, sz, perm)
    requires table == LookupL1(t, pt, va, perm).addr
    requires t' == SetEntry(t, table, L1PageIndex(va), LeafEntry(pa, perm))
    requires LoopReady(t', pt, va + PAGESIZE, NextAddr(pa), sz - PAGESIZE, perm, RegionKey(va), table)
    requires SameL1(t, t', pt, va + PAGESIZE, sz - PAGESIZE, perm)
    ensures LoopEffect(t, pt, va, pa, sz, perm,
      MapLoop(t', pt, NextAddr(va), NextAddr(pa), sz - PAGESIZE, perm, RegionKey(va), table))
    decreases sz, 1
  {
    TailEffect(t', pt, va, pa, sz, perm, table);
    var r := MapLoop(t', pt, NextAddr(va), NextAddr(pa), sz - PAGESIZE, perm, RegionKey(va), table);
    WriteStepEffect(t, t', pt, va, pa, sz, perm, r);
  }

  /** The loop over the pages after `va`, by induction. */
  lemma {:induction false} TailEffect(t': Tables, pt: U64, va: U64, pa: U64, sz: U64, perm: int, table: U64)
    requires sz % 4096 == 0 && sz >= PAGESIZE && 0 <= perm < 0x1000 && va + sz <= LOWER_HALF
    requires IsPresent(perm) ==> pa % 4096 == 0
    requires LoopReady(t', pt, va + PAGESIZE, NextAddr(pa), sz - PAGESIZE, perm, RegionKey(va), table)
    ensures LoopEffect(t', pt, va + PAGESIZE, NextAddr(pa), sz - PAGESIZE, perm,
      MapLoop(t', pt, NextAddr(va), NextAddr(pa), sz - PAGESIZE, perm, RegionKey(va), table))
    decreases sz, 0
  {
    assert NextAddr(va) == va + PAGESIZE;
    MapLoopEffect(t', pt, va + PAGESIZE, NextAddr(pa), sz - PAGESIZE, perm, RegionKey(va), table);
  }

  /** After the first page's leaf entry is written the loop is ready for the
      rest of the range, whose walks are unchanged. */
  lemma WriteReady(t: Tables, pt: U64, va: U64, pa: U64, sz: U64, perm: int, last: I32, l1: U64)
    requires LoopReady(t, pt, va, pa, sz, perm, last, l1) && sz > 0
    requires HasL1(t, pt, va, perm)
    ensures var t' := SetEntry(t, LookupL1(t, pt, va, perm).addr, L1PageIndex(va), LeafEntry(pa, perm));
      && LoopReady(t', pt, va + PAGESIZE, NextAddr(pa), sz - PAGESIZE, perm, RegionKey(va), LookupL1(t, pt, va, perm).addr)
      && SameL1(t, t', pt, va + PAGESIZE, sz - PAGESIZE, perm)
  {
    var t' := SetEntry(t, LookupL1(t, pt, va, perm).addr, L1PageIndex(va), LeafEntry(pa, perm));
    WriteKeepsWalks(t, pt, va, sz, perm, L1PageIndex(va), LeafEntry(pa, perm));
    ReadyNext(t, t', pt, va, pa, sz, perm, last, l1);
  }

  /** One iteration of the map loop, with a cache that agrees with
      `lookup_l1pagetable` for the current page. */
  lemma MapLoopStep(t: Tables, pt: U64, va: U64, pa: U64, sz: U64, perm: int, last: I32, l1: U64)
    requires sz % 4096 == 0 && sz > 0 && 0 <= perm < 0x1000
    requires IsPresent(perm) ==> pa % 4096 == 0
    requires last == RegionKey(va) ==> LookupL1(t, pt, va, perm) == L1Ptr(l1)
    requires LookupL1(t, pt, va, perm).L1Ptr?
    ensures sz >= PAGESIZE && (sz - PAGESIZE) % 4096 == 0
    ensures var tb := LookupL1(t, pt, va, perm).addr;
      MapLoop(t, pt, va, pa, sz, perm, last, l1)
      == if tb != 0 then
           MapLoop(SetEntry(t, tb, L1PageIndex(va), LeafEntry(pa, perm)), pt, NextAddr(va), NextAddr(pa),
                   sz - PAGESIZE, perm, RegionKey(va), tb)
         else if IsPresent(perm) then MapDone(-1, t)
         else MapLoop(t, pt, NextAddr(va), NextAddr(pa), sz - PAGESIZE, perm, RegionKey(va), tb)
  {
    SizeStep(sz);
  }

  // ---------------------------------------------------------------- what the map promises

  /** `virtual_memory_map` on a walkable, separated range below 2^47 with
      valid arguments has the effect `LoopEffect` describes. */
  lemma VirtualMemoryMapEffect(t: Tables, pt: U64, va: U64, pa: U64, sz: U64, perm: int)
    requires MapArgumentsOk(pt, va, pa, sz, perm) && va + sz <= LOWER_HALF
    requires Walkable(t, pt, va, sz, perm) && Separated(t, pt, va, sz, perm)
    ensures LoopEffect(t, pt, va, pa, sz, perm, VirtualMemoryMap(t, pt, va, pa, sz, perm))
  {
    if sz > 0 {
      RegionKeys(va, va);
    }
    MapLoopEffect(t, pt, va, pa, sz, perm, -1, 0);
  }

  /** Every page of the range has a level-1 table. */
  predicate AllHaveL1(t: Tables, pt: U64, va: nat, sz: nat, perm: int)
  {
    forall a: U64 {:trigger InRange(a, va, sz)} | InRange(a, va, sz) :: HasL1(t, pt, a, perm)
  }

  /** A range whose pages all have level-1 tables is walkable and misses none. */
  lemma AllHaveL1Walkable(t: Tables, pt: U64, va: nat, sz: nat, perm: int)
    requires AllHaveL1(t, pt, va, sz, perm)
    ensures Walkable(t, pt, va, sz, perm) && !MissingL1(t, pt, va, sz, perm)
  {
  }

  lemma AllHaveL1Before(t: Tables, pt: U64, va: nat, sz: nat, perm: int, a: U64)
    requires AllHaveL1(t, pt, va, sz, perm) && InRange(a, va, sz)
    ensures HasL1(t, pt, a, perm) && NoMissingBefore(t, pt, va, sz, a, perm)
  {
  }

  /** The entries of the upper tables of a page of a separated range survive
      any change confined to the range's leaf slots. */
  lemma UpperEntryKept(t: Tables, t': Tables, pt: U64, va: nat, sz: nat, perm: int, a: U64, tb: U64, i: nat)
    requires Separated(t, pt, va, sz, perm) && OnlyLeafSlots(t, t', pt, va, sz, perm)
    requires InRange(a, va, sz) && tb in UpperTables(t, pt, a) && i < NPAGETABLEENTRIES
    ensures Entry(t', tb, i) == Entry(t, tb, i)
  {
    if Entry(t', tb, i) != Entry(t, tb, i) {
      assert false;
    }
  }

  /** So the walk of such a page down to its level-1 table is the same in
      both. */
  lemma UpperPathKept(t: Tables, t': Tables, pt: U64, va: nat, sz: nat, perm: int, a: U64)
    requires Separated(t, pt, va, sz, perm) && OnlyLeafSlots(t, t', pt, va, sz, perm)
    requires InRange(a, va, sz)
    ensures PathEntry(t', pt, a, 0) == PathEntry(t, pt, a, 0)
    ensures PathEntry(t', pt, a, 1) == PathEntry(t, pt, a, 1)
    ensures PathEntry(t', pt, a, 2) == PathEntry(t, pt, a, 2)
    ensures PathTable(t', pt, a, 3) == PathTable(t, pt, a, 3)
  {
    UpperEntryKept(t, t', pt, va, sz, perm, a, PathTable(t, pt, a, 0), PageIndex(a, 0));
    UpperEntryKept(t, t', pt, va, sz, perm, a, PathTable(t, pt, a, 1), PageIndex(a, 1));
    UpperEntryKept(t, t', pt, va, sz, perm, a, PathTable(t, pt, a, 2), PageIndex(a, 2));
  }

  /** The leaf entry of a page of the range, as its walk in `t'` finds it, is
      the slot the loop wrote. */
  lemma LeafOfPage(t: Tables, t': Tables, pt: U64, va: nat, sz: nat, perm: int, a: U64)
    requires Separated(t, pt, va, sz, perm) && OnlyLeafSlots(t, t', pt, va, sz, perm)
    requires InRange(a, va, sz) && HasL1(t, pt, a, perm)
    ensures forall level | 0 <= level <= 2 ::
      IsPresent(PathEntry(t', pt, a, level)) && EntrySane(PathEntry(t', pt, a, level), perm)
    ensures PathEntry(t', pt, a, 3) == Entry(t', LookupL1(t, pt, a, perm).addr, L1PageIndex(a))
  {
    UpperPathKept(t, t', pt, va, sz, perm, a);
    LookupL1Found(t, pt, a, perm);
  }

  /** A page the loop reached with P in `perm` is mapped along a sane path to
      `pa + (a - va)` with `perm`. */
  lemma MappedPage(t: Tables, t': Tables, pt: U64, va: U64, pa: U64, sz: U64, perm: int, a: U64)
    requires va % 4096 == 0 && 0 <= perm < 0x1000 && IsPresent(perm)
    requires pa % 4096 == 0 && pa + sz <= MEMSIZE_PHYSICAL
    requires Separated(t, pt, va, sz, perm) && OnlyLeafSlots(t, t', pt, va, sz, perm)
    requires Installed(t, t', pt, va, pa, sz, perm)
    requires InRange(a, va, sz) && HasL1(t, pt, a, perm) && NoMissingBefore(t, pt, va, sz, a, perm)
    ensures SaneLeafPath(t', pt, a, pa + (a - va), perm)
    ensures PageOffset(a) == 0
  {
    LeafOfPage(t, t', pt, va, sz, perm, a);
    PageOfRange(va, pa, sz, a);
    assert Entry(t', LookupL1(t, pt, a, perm).addr, L1PageIndex(a)) == LeafValue(va, pa, perm, a);
  }

  /** The physical page matched with a page of the range is aligned and lies
      below the end of physical memory; the page itself has offset 0. */
  lemma PageOfRange(va: U64, pa: U64, sz: U64, a: U64)
    requires va % 4096 == 0 && pa % 4096 == 0 && pa + sz <= MEMSIZE_PHYSICAL && InRange(a, va, sz)
    ensures (pa + (a - va)) % 4096 == 0 && pa + (a - va) + PAGESIZE <= MEMSIZE_PHYSICAL
    ensures PageOffset(a) == 0
  {
    var k := (a - va) / 4096;
    assert a - va == k * 4096;
    assert pa + (a - va) == (pa / 4096 + k) * 4096;
    assert a == (va / 4096 + k) * 4096;
  }

  /** An address of the range lies on a page of the range. */
  lemma PageOfAddress(va: U64, sz: U64, a: U64)
    requires va % 4096 == 0 && sz % 4096 == 0 && va <= a < va + sz
    ensures InRange(PageDown(a), va, sz)
  {
    var p := PageDown(a);
    var kp, kv := p / 4096, va / 4096;
    assert p == kp * 4096 && va == kv * 4096;
    assert p - va == (kp - kv) * 4096;
  }

  /** An address on a page of a mapped range translates, through either
      mask, to the matching physical address. */
  lemma AddressOfLeaf(t: Tables, pt: U64, va: U64, pa: U64, perm: int, a: U64)
    requires va <= PageDown(a) && pa + (a - va) < TWO_64
    requires SaneLeafPath(t, pt, PageDown(a), pa + (PageDown(a) - va), perm)
    ensures VirtualMemoryLookup(t, pt, a) == VAMapping(PageNumber(pa + (a - va)), pa + (a - va), perm)
    ensures VirtualMemoryLookupIntended(t, pt, a) == VAMapping(PageNumber(pa + (a - va)), pa + (a - va), perm)
  {
    LeafOfAddress(t, pt, va, pa, perm, a);
    LookupsOfLeaf(t, pt, a, pa + (PageDown(a) - va), pa + (a - va), perm);
  }

  /** Address `a` lies at its page offset on the physical page matched with
      its page. */
  lemma LeafOfAddress(t: Tables, pt: U64, va: U64, pa: U64, perm: int, a: U64)
    requires va <= PageDown(a) && pa + (a - va) < TWO_64
    requires SaneLeafPath(t, pt, PageDown(a), pa + (PageDown(a) - va), perm)
    ensures LeafAt(t, pt, a, pa + (PageDown(a) - va), pa + (a - va), perm)
  {
    var x := pa + (PageDown(a) - va);
    SaneLeafOnPage(t, pt, a, PageDown(a), x, perm);
    PageNumberWithin(x, PageOffset(a));
  }

  lemma SaneLeafOnPage(t: Tables, pt: U64, a: U64, p: U64, x: U64, perm: int)
    requires SaneLeafPath(t, pt, p, x, perm) && p == PageDown(a)
    ensures SaneLeafPath(t, pt, a, x, perm)
  {
    ModUnique(a, 4096, p / 4096, PageOffset(a));
    SamePagePath(t, pt, a, p);
  }

  /** Every page of `[va, va + sz)` has a sane leaf path to the matching
      page from `pa`, carrying `perm`. */
  predicate MapsRange(t: Tables, pt: U64, va: U64, pa: U64, sz: U64, perm: int)
  {
    forall a: U64 {:trigger InRange(a, va, sz)} | InRange(a, va, sz) :: pa + (a - va) < TWO_64
      && SaneLeafPath(t, pt, a, pa + (a - va), perm)
  }

  /** After the loop has run over a range whose pages all have level-1
      tables, the range is mapped. */
  lemma MappedRange(t: Tables, t': Tables, pt: U64, va: U64, pa: U64, sz: U64, perm: int)
    requires va % 4096 == 0 && 0 <= perm < 0x1000 && IsPresent(perm)
    requires pa % 4096 == 0 && pa + sz <= MEMSIZE_PHYSICAL
    requires AllHaveL1(t, pt, va, sz, perm) && Separated(t, pt, va, sz, perm)
    requires OnlyLeafSlots(t, t', pt, va, sz, perm) && Installed(t, t', pt, va, pa, sz, perm)
    ensures MapsRange(t', pt, va, pa, sz, perm)
  {
    forall a: U64 | InRange(a, va, sz)
      ensures pa + (a - va) < TWO_64 && SaneLeafPath(t', pt, a, pa + (a - va), perm)
    {
      AllHaveL1Before(t, pt, va, sz, perm, a);
      MappedPage(t, t', pt, va, pa, sz, perm, a);
    }
  }

  /** In a mapped range every address, not only every page start, translates
      to the matching physical address with exactly `perm`, through either
      mask. */
  lemma MapsRangeTranslates(t: Tables, pt: U64, va: U64, pa: U64, sz: U64, perm: int)
    requires va % 4096 == 0 && sz % 4096 == 0 && pa + sz <= TWO_64
    requires MapsRange(t, pt, va, pa, sz, perm)
    ensures forall a: U64 | va <= a < va + sz ::
      var m := VAMapping(PageNumber(pa + (a - va)), pa + (a - va), perm);
      VirtualMemoryLookup(t, pt, a) == m && VirtualMemoryLookupIntended(t, pt, a) == m
  {
    forall a: U64 | va <= a < va + sz
      ensures VirtualMemoryLookup(t, pt, a) == VAMapping(PageNumber(pa + (a - va)), pa + (a - va), perm)
      ensures VirtualMemoryLookupIntended(t, pt, a) == VAMapping(PageNumber(pa + (a - va)), pa + (a - va), perm)
    {
      AddressOfRange(t, pt, va, pa, sz, perm, a);
    }
  }

  /** One address of a mapped range translates to the matching physical
      address. */
  lemma AddressOfRange(t: Tables, pt: U64, va: U64, pa: U64, sz: U64, perm: int, a: U64)
    requires va % 4096 == 0 && sz % 4096 == 0 && pa + sz <= TWO_64
    requires MapsRange(t, pt, va, pa, sz, perm) && va <= a < va + sz
    ensures VirtualMemoryLookup(t, pt, a) == VAMapping(PageNumber(pa + (a - va)), pa + (a - va), perm)
    ensures VirtualMemoryLookupIntended(t, pt, a) == VAMapping(PageNumber(pa + (a - va)), pa + (a - va), perm)
  {
    PageOfAddress(va, sz, a);
    AddressOfLeaf(t, pt, va, pa, perm, a);
  }

  /** `virtual_memory_map` with P, over a range whose pages all have level-1
      tables, returns 0, and afterwards every address of the range looks up
      to the matching physical address with exactly `perm`, through either
      mask. */
  lemma VirtualMemoryMapRoundTrip(t: Tables, pt: U64, va: U64, pa: U64, sz: U64, perm: int)
    requires MapArgumentsOk(pt, va, pa, sz, perm) && IsPresent(perm) && va + sz <= LOWER_HALF
    requires AllHaveL1(t, pt, va, sz, perm) && Separated(t, pt, va, sz, perm)
    ensures VirtualMemoryMap(t, pt, va, pa, sz, perm).MapDone?
    ensures VirtualMemoryMap(t, pt, va, pa, sz, perm).code == 0
    ensures MapsRange(VirtualMemoryMap(t, pt, va, pa, sz, perm).tables, pt, va, pa, sz, perm)
    ensures forall a: U64 | va <= a < va + sz ::
      var m := VAMapping(PageNumber(pa + (a - va)), pa + (a - va), perm);
      && VirtualMemoryLookup(VirtualMemoryMap(t, pt, va, pa, sz, perm).tables, pt, a) == m
      && VirtualMemoryLookupIntended(VirtualMemoryMap(t, pt, va, pa, sz, perm).tables, pt, a) == m
  {
    var r := VirtualMemoryMap(t, pt, va, pa, sz, perm);
    AllHaveL1Walkable(t, pt, va, sz, perm);
    VirtualMemoryMapEffect(t, pt, va, pa, sz, perm);
    MappedRange(t, r.tables, pt, va, pa, sz, perm);
    MapsRangeTranslates(r.tables, pt, va, pa, sz, perm);
  }

  /** `virtual_memory_map` without P never fails: it stores `0 | perm` in the
      leaf slot of every page of the range that has a level-1 table, so each
      of those pages looks up as unmapped, and skips the others. */
  lemma VirtualMemoryMapWithoutPresent(t: Tables, pt: U64, va: U64, pa: U64, sz: U64, perm: int)
    requires MapArgumentsOk(pt, va, pa, sz, perm) && !IsPresent(perm) && va + sz <= LOWER_HALF
    requires Walkable(t, pt, va, sz, perm) && Separated(t, pt, va, sz, perm)
    ensures VirtualMemoryMap(t, pt, va, pa, sz, perm).MapDone?
    ensures VirtualMemoryMap(t, pt, va, pa, sz, perm).code == 0
    ensures forall a: U64 | InRange(a, va, sz) && HasL1(t, pt, a, perm) ::
      && PathEntry(VirtualMemoryMap(t, pt, va, pa, sz, perm).tables, pt, a, 3) == perm
      && VirtualMemoryLookup(VirtualMemoryMap(t, pt, va, pa, sz, perm).tables, pt, a) == UNMAPPED
  {
    var r := VirtualMemoryMap(t, pt, va, pa, sz, perm);
    VirtualMemoryMapEffect(t, pt, va, pa, sz, perm);
    forall a: U64 | InRange(a, va, sz) && HasL1(t, pt, a, perm)
      ensures PathEntry(r.tables, pt, a, 3) == perm
      ensures VirtualMemoryLookup(r.tables, pt, a) == UNMAPPED
    {
      LeafOfPage(t, r.tables, pt, va, sz, perm, a);
      LookupSpec(r.tables, pt, a, true);
      assert !PathPresent(r.tables, pt, a);
    }
  }
}
