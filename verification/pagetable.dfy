/** Four-level x86-64 page tables held in physical memory, and the walk that
    `virtual_memory_lookup` (vm.c) performs over them. */
module PageTables {
  import opened X86
  import opened Layout

  /** Physical memory as far as page tables are concerned: the 512 entries of
      the table stored at each page-aligned physical address. */
  type Tables = map<U64, seq<U64>>

  /** A table of 512 zero (non-present) entries. */
  function ZeroTable(): (r: seq<U64>)
    ensures |r| == NPAGETABLEENTRIES
    ensures forall i | 0 <= i < |r| :: r[i] == 0
  {
    seq(NPAGETABLEENTRIES, i => 0)
  }

  /** The table at `addr`; memory that holds no table reads as zero entries. */
  function Table(t: Tables, addr: U64): (r: seq<U64>)
    ensures |r| == NPAGETABLEENTRIES
  {
    if addr in t && |t[addr]| == NPAGETABLEENTRIES then t[addr] else ZeroTable()
  }

  /** `((x86_64_pagetable*) addr)->entry[i]`. */
  function Entry(t: Tables, addr: U64, i: nat): U64
    requires i < NPAGETABLEENTRIES
  {
    Table(t, addr)[i]
  }

  /** `((x86_64_pagetable*) addr)->entry[i] = v`: one entry changes, no other. */
  function SetEntry(t: Tables, addr: U64, i: nat, v: U64): (r: Tables)
    requires i < NPAGETABLEENTRIES
    ensures Entry(r, addr, i) == v
    ensures forall a: U64, j {:trigger Entry(r, a, j)} | 0 <= j < NPAGETABLEENTRIES && (a != addr || j != i) ::
              Entry(r, a, j) == Entry(t, a, j)
  {
    t[addr := Table(t, addr)[i := v]]
  }

  // ---------------------------------------------------------------- flag bits of an entry

  /** The three low bits of `x` are the P, W and U flags; the rest is `x / 8`. */
  lemma LowBits(x: nat)
    ensures IsPresent(x) == (x % 8 % 2 == 1)
    ensures IsWritable(x) == (x % 8 / 2 % 2 == 1)
    ensures IsUser(x) == (x % 8 / 4 == 1)
    ensures x % PAGESIZE == (x / 8) % 512 * 8 + x % 8
  {
    var q, r := x / 8, x % 8;
    DivModParts(x, 8);
    DivModParts(r, 2);
    DivModParts(r, 4);
    DivModParts(r / 2, 2);
    ModUnique(x, 2, 4 * q + r / 2, r % 2);
    ModUnique(x, 4, 2 * q + r / 4, r % 4);
    ModUnique(x / 2, 2, 2 * q + r / 2 / 2, r / 2 % 2);
    ModUnique(x / 4, 2, q, r / 4);
    DivDiv(x, 8, 512);
  }

  /** Taking away part of the three low bits leaves the rest of the word. */
  lemma SubLow(e: nat, d: nat)
    requires d <= e % 8
    ensures (e - d) / 8 == e / 8 && (e - d) % 8 == e % 8 - d
    ensures (e - d) % PAGESIZE == e % PAGESIZE - d
  {
    DivModParts(e, 8);
    DivModParts(e, PAGESIZE);
    DivDiv(e, 8, 512);
    ModUnique(e - d, 8, e / 8, e % 8 - d);
    ModUnique(e - d, PAGESIZE, e / PAGESIZE, e % PAGESIZE - d);
  }

  /** Two flag words below 0x1000 are equal when their P, W and U bits and
      their upper nine bits agree. */
  lemma FlagsEqual(x: nat, y: nat)
    requires x < PAGESIZE && y < PAGESIZE
    requires x / 8 == y / 8
    requires IsPresent(x) == IsPresent(y)
    requires IsWritable(x) == IsWritable(y)
    requires IsUser(x) == IsUser(y)
    ensures x == y
  {
    LowBits(x);
    LowBits(y);
    DivModParts(x, 8);
    DivModParts(y, 8);
    ThreeBits(x % 8, y % 8);
  }

  /** Three bits determine a number below 8. */
  lemma ThreeBits(r: nat, s: nat)
    requires r < 8 && s < 8 && r % 2 == s % 2 && r / 2 % 2 == s / 2 % 2 && r / 4 == s / 4
    ensures r == s
  {
    assert r == 0 || r == 1 || r == 2 || r == 3 || r == 4 || r == 5 || r == 6 || r == 7;
  }

  /** The part of the three low bits `l` that clearing W and U takes away. */
  function LowClear(l: nat, clearW: bool, clearU: bool): nat
  {
    (if clearW && l / 2 % 2 == 1 then 2 else 0) + (if clearU && l / 4 == 1 then 4 else 0)
  }

  lemma ClearLowBits(l: nat, clearW: bool, clearU: bool)
    requires l < 8
    ensures LowClear(l, clearW, clearU) <= l
    ensures (l - LowClear(l, clearW, clearU)) % 2 == l % 2
    ensures ((l - LowClear(l, clearW, clearU)) / 2 % 2 == 1) == (l / 2 % 2 == 1 && !clearW)
    ensures ((l - LowClear(l, clearW, clearU)) / 4 == 1) == (l / 4 == 1 && !clearU)
  {
    assert l == 0 || l == 1 || l == 2 || l == 3 || l == 4 || l == 5 || l == 6 || l == 7;
  }

  /** `e & ~m` for the part `m` of `PTE_W | PTE_U` selected by `clearW` and
      `clearU`: the address, P and the upper flag bits stay. */
  function ClearWU(e: U64, clearW: bool, clearU: bool): (r: U64)
    ensures PteAddr(r) == PteAddr(e)
    ensures PteFlags(r) / 8 == PteFlags(e) / 8
    ensures IsPresent(r) == IsPresent(e)
    ensures IsWritable(r) == (IsWritable(e) && !clearW)
    ensures IsUser(r) == (IsUser(e) && !clearU)
  {
    ClearLowBits(e % 8, clearW, clearU);
    ClearKeepsAddress(e, LowClear(e % 8, clearW, clearU));
    ClearFlagBits(e, clearW, clearU);
    e - LowClear(e % 8, clearW, clearU)
  }

  lemma ClearKeepsAddress(e: U64, d: nat)
    requires d <= e % 8
    ensures PteAddr(e - d) == PteAddr(e)
    ensures PteFlags(e - d) / 8 == PteFlags(e) / 8
  {
    SubLow(e, d);
    OffsetLowBits(e);
    SubLow(e % PAGESIZE, d);
    assert PageDown(e - d) + (e % PAGESIZE - d) == e - d;
  }

  /** The three low bits of the page offset are those of the word. */
  lemma OffsetLowBits(e: nat)
    ensures e % PAGESIZE % 8 == e % 8
  {
    DivDiv(e, 8, 512);
    DivModParts(e, 8);
    ModUnique(e % PAGESIZE, 8, (e / 8) % 512, e % 8);
  }

  lemma ClearFlagBits(e: U64, clearW: bool, clearU: bool)
    requires LowClear(e % 8, clearW, clearU) <= e % 8
    ensures IsPresent(e - LowClear(e % 8, clearW, clearU)) == IsPresent(e)
    ensures IsWritable(e - LowClear(e % 8, clearW, clearU)) == (IsWritable(e) && !clearW)
    ensures IsUser(e - LowClear(e % 8, clearW, clearU)) == (IsUser(e) && !clearU)
  {
    var l := e % 8;
    var d := LowClear(l, clearW, clearU);
    ClearLowBits(l, clearW, clearU);
    SubLow(e, d);
    LowBits(e);
    LowBits(e - d);
  }

  /** One masking step of the lookup walk. `virtual_memory_lookup` computes
      `entry & ~(prev & (PTE_W|PTE_U))` (`asWritten`); the conventional walk
      computes `entry & ~(~prev & (PTE_W|PTE_U))`, dropping the W and U bits
      that the entry one level up lacks. */
  function MaskStep(e: U64, prev: U64, asWritten: bool): U64
  {
    if asWritten then ClearWU(e, IsWritable(prev), IsUser(prev))
    else ClearWU(e, !IsWritable(prev), !IsUser(prev))
  }

  // ---------------------------------------------------------------- the path of an address

  /** The table visited at `level` when translating `va` from `pt`, following
      the raw entry addresses. */
  function PathTable(t: Tables, pt: U64, va: U64, level: nat): U64
    requires level <= 3
    decreases level, 0
  {
    if level == 0 then pt else PteAddr(PathEntry(t, pt, va, level - 1))
  }

  /** The raw entry for `va` at `level`: `PathTable(level)->entry[PAGEINDEX(va, level)]`. */
  function PathEntry(t: Tables, pt: U64, va: U64, level: nat): U64
    requires level <= 3
    decreases level, 1
  {
    Entry(t, PathTable(t, pt, va, level), PageIndex(va, level))
  }

  /** The loop of `virtual_memory_lookup` from `level` on, with `pe` the masked
      entry of the level before (initially `PTE_W | PTE_U | PTE_P`). */
  function Walk(t: Tables, pt: U64, va: U64, level: nat, pe: U64, asWritten: bool): U64
    requires level <= 4
    decreases 4 - level
  {
    if level == 4 || !IsPresent(pe) then pe
    else
      var e := MaskStep(Entry(t, pt, PageIndex(va, level)), pe, asWritten);
      Walk(t, PteAddr(e), va, level + 1, e, asWritten)
  }

  function Lookup(t: Tables, pagetable: U64, va: U64, asWritten: bool): VAMapping
  {
    var pe := Walk(t, pagetable, va, 0, PTE_PWU, asWritten);
    if IsPresent(pe) then
      VAMapping(PageNumber(pe), PteAddr(pe) + PageOffset(va), PteFlags(pe))
    else UNMAPPED
  }

  /** `virtual_memory_lookup(pagetable, va)` as vm.c writes it: a mapping
      exactly when all four levels of the path are present, and then the
      leaf's address plus the page offset, with P set in the permission. */
  function VirtualMemoryLookup(t: Tables, pagetable: U64, va: U64): (r: VAMapping)
    ensures r != UNMAPPED <==> PathPresent(t, pagetable, va)
    ensures r != UNMAPPED ==> IsPresent(r.perm) && r.pa == PteAddr(PathEntry(t, pagetable, va, 3)) + PageOffset(va)
  {
    LookupSpec(t, pagetable, va, true);
    Lookup(t, pagetable, va, true)
  }

  /** The lookup with the conventional mask: a permission survives only if every
      level grants it. It finds the same pages as the lookup as written. */
  function VirtualMemoryLookupIntended(t: Tables, pagetable: U64, va: U64): (r: VAMapping)
    ensures r != UNMAPPED <==> PathPresent(t, pagetable, va)
    ensures r != UNMAPPED ==> IsPresent(r.perm) && r.pa == PteAddr(PathEntry(t, pagetable, va, 3)) + PageOffset(va)
  {
    LookupSpec(t, pagetable, va, false);
    Lookup(t, pagetable, va, false)
  }

  /** The four masked entries of the walk, each computed from the raw path
      entry and the masked entry one level up. */
  function Masked(t: Tables, pt: U64, va: U64, level: nat, asWritten: bool): U64
    requires level <= 3
  {
    var prev := if level == 0 then PTE_PWU else Masked(t, pt, va, level - 1, asWritten);
    MaskStep(PathEntry(t, pt, va, level), prev, asWritten)
  }

  /** The walk reads, at each level `i`, entry `PAGEINDEX(va, i)` of the table
      the previous entry's address names, and stops at the first masked entry
      without P. */
  lemma {:induction false} WalkUnfolds(t: Tables, pt: U64, va: U64, asWritten: bool)
    ensures Walk(t, pt, va, 0, PTE_PWU, asWritten)
         == (if !IsPresent(Masked(t, pt, va, 0, asWritten)) then Masked(t, pt, va, 0, asWritten)
             else if !IsPresent(Masked(t, pt, va, 1, asWritten)) then Masked(t, pt, va, 1, asWritten)
             else if !IsPresent(Masked(t, pt, va, 2, asWritten)) then Masked(t, pt, va, 2, asWritten)
             else Masked(t, pt, va, 3, asWritten))
  {
    var m0 := Masked(t, pt, va, 0, asWritten);
    var m1 := Masked(t, pt, va, 1, asWritten);
    var m2 := Masked(t, pt, va, 2, asWritten);
    var m3 := Masked(t, pt, va, 3, asWritten);
    assert IsPresent(PTE_PWU) by { assert PTE_PWU / PTE_P == 7; }
    assert Walk(t, pt, va, 0, PTE_PWU, asWritten) == Walk(t, PteAddr(m0), va, 1, m0, asWritten);
    assert PteAddr(m0) == PathTable(t, pt, va, 1);
    if IsPresent(m0) {
      assert Walk(t, PteAddr(m0), va, 1, m0, asWritten) == Walk(t, PteAddr(m1), va, 2, m1, asWritten);
      assert PteAddr(m1) == PathTable(t, pt, va, 2);
      if IsPresent(m1) {
        assert Walk(t, PteAddr(m1), va, 2, m1, asWritten) == Walk(t, PteAddr(m2), va, 3, m2, asWritten);
        assert PteAddr(m2) == PathTable(t, pt, va, 3);
        if IsPresent(m2) {
          assert Walk(t, PteAddr(m2), va, 3, m2, asWritten) == Walk(t, PteAddr(m3), va, 4, m3, asWritten);
        }
      }
    }
  }

  /** A masked entry keeps the P bit and the address of the raw path entry. */
  lemma MaskedKeeps(t: Tables, pt: U64, va: U64, level: nat, asWritten: bool)
    requires level <= 3
    ensures IsPresent(Masked(t, pt, va, level, asWritten)) == IsPresent(PathEntry(t, pt, va, level))
    ensures PteAddr(Masked(t, pt, va, level, asWritten)) == PteAddr(PathEntry(t, pt, va, level))
    ensures PteFlags(Masked(t, pt, va, level, asWritten)) / 8 == PteFlags(PathEntry(t, pt, va, level)) / 8
  {
  }

  /** All four entries on the path of `va` are present. */
  predicate PathPresent(t: Tables, pt: U64, va: U64)
  {
    forall level | 0 <= level <= 3 :: IsPresent(PathEntry(t, pt, va, level))
  }

  /** The lookup (either mask) finds a mapping exactly when every level of
      the path is present, and then reports the leaf's address plus the page
      offset, the leaf's page number, and the leaf's flags up to W and U. */
  lemma LookupSpec(t: Tables, pt: U64, va: U64, asWritten: bool)
    ensures Lookup(t, pt, va, asWritten) != UNMAPPED <==> PathPresent(t, pt, va)
    ensures PathPresent(t, pt, va) ==>
      var m := Lookup(t, pt, va, asWritten);
      var leaf := PathEntry(t, pt, va, 3);
      && m.pa == PteAddr(leaf) + PageOffset(va)
      && m.pn == PageNumber(leaf)
      && m.perm == PteFlags(Masked(t, pt, va, 3, asWritten))
      && m.perm / 8 == PteFlags(leaf) / 8
      && IsPresent(m.perm)
  {
    WalkResult(t, pt, va, asWritten);
    MaskedKeeps(t, pt, va, 3, asWritten);
    var m3 := Masked(t, pt, va, 3, asWritten);
    FlagsOfPteFlags(m3);
    PageNumberOfPteAddr(m3);
    PageNumberOfPteAddr(PathEntry(t, pt, va, 3));
    if PathPresent(t, pt, va) {
      assert Lookup(t, pt, va, asWritten).perm != 0;
    }
  }

  /** The walk ends on a present entry exactly when the whole path is
      present, and that entry is then the masked leaf. */
  lemma WalkResult(t: Tables, pt: U64, va: U64, asWritten: bool)
    ensures IsPresent(Walk(t, pt, va, 0, PTE_PWU, asWritten)) <==> PathPresent(t, pt, va)
    ensures PathPresent(t, pt, va) ==> Walk(t, pt, va, 0, PTE_PWU, asWritten) == Masked(t, pt, va, 3, asWritten)
  {
    WalkUnfolds(t, pt, va, asWritten);
    MaskedKeeps(t, pt, va, 0, asWritten);
    MaskedKeeps(t, pt, va, 1, asWritten);
    MaskedKeeps(t, pt, va, 2, asWritten);
    MaskedKeeps(t, pt, va, 3, asWritten);
    if !PathPresent(t, pt, va) {
      var level :| 0 <= level <= 3 && !IsPresent(PathEntry(t, pt, va, level));
      assert !IsPresent(Masked(t, pt, va, level, asWritten));
    }
  }

  /** With the conventional mask a W or U permission is reported exactly when
      all four levels grant it. */
  lemma LookupIntendedPerm(t: Tables, pt: U64, va: U64)
    requires PathPresent(t, pt, va)
    ensures var m := VirtualMemoryLookupIntended(t, pt, va);
      && IsWritable(m.perm) == (forall level | 0 <= level <= 3 :: IsWritable(PathEntry(t, pt, va, level)))
      && IsUser(m.perm) == (forall level | 0 <= level <= 3 :: IsUser(PathEntry(t, pt, va, level)))
  {
    IntendedPermBits(t, pt, va);
    LevelsOneByOne(t, pt, va);
  }

  /** The same, naming the four levels one by one. */
  lemma IntendedPermBits(t: Tables, pt: U64, va: U64)
    requires PathPresent(t, pt, va)
    ensures var m := VirtualMemoryLookupIntended(t, pt, va);
      var e0, e1, e2, e3 := PathEntry(t, pt, va, 0), PathEntry(t, pt, va, 1), PathEntry(t, pt, va, 2), PathEntry(t, pt, va, 3);
      && IsWritable(m.perm) == (IsWritable(e0) && IsWritable(e1) && IsWritable(e2) && IsWritable(e3))
      && IsUser(m.perm) == (IsUser(e0) && IsUser(e1) && IsUser(e2) && IsUser(e3))
  {
    LookupSpec(t, pt, va, false);
    FlagsOfPteFlags(Masked(t, pt, va, 3, false));
    MaskedIntendedBits(t, pt, va);
  }

  /** W (U) at every level is W (U) at each of the four. */
  lemma LevelsOneByOne(t: Tables, pt: U64, va: U64)
    ensures var e0, e1, e2, e3 := PathEntry(t, pt, va, 0), PathEntry(t, pt, va, 1), PathEntry(t, pt, va, 2), PathEntry(t, pt, va, 3);
      && (forall level | 0 <= level <= 3 :: IsWritable(PathEntry(t, pt, va, level)))
         == (IsWritable(e0) && IsWritable(e1) && IsWritable(e2) && IsWritable(e3))
      && (forall level | 0 <= level <= 3 :: IsUser(PathEntry(t, pt, va, level)))
         == (IsUser(e0) && IsUser(e1) && IsUser(e2) && IsUser(e3))
  {
  }

  /** The conventional mask keeps W (U) at the leaf exactly when all four
      levels grant W (U). */
  lemma MaskedIntendedBits(t: Tables, pt: U64, va: U64)
    ensures var e0, e1, e2, e3 := PathEntry(t, pt, va, 0), PathEntry(t, pt, va, 1), PathEntry(t, pt, va, 2), PathEntry(t, pt, va, 3);
      && IsWritable(Masked(t, pt, va, 3, false)) == (IsWritable(e0) && IsWritable(e1) && IsWritable(e2) && IsWritable(e3))
      && IsUser(Masked(t, pt, va, 3, false)) == (IsUser(e0) && IsUser(e1) && IsUser(e2) && IsUser(e3))
  {
    assert IsWritable(PTE_PWU) && IsUser(PTE_PWU);
    var e0, e1, e2, e3 := PathEntry(t, pt, va, 0), PathEntry(t, pt, va, 1), PathEntry(t, pt, va, 2), PathEntry(t, pt, va, 3);
    MaskedStep(t, pt, va, 1, false);
    MaskedStep(t, pt, va, 2, false);
    MaskedStep(t, pt, va, 3, false);
  }

  /** One level of the walk: the masked entry is the raw entry masked by the
      masked entry one level up. */
  lemma MaskedStep(t: Tables, pt: U64, va: U64, level: nat, asWritten: bool)
    requires 1 <= level <= 3
    ensures Masked(t, pt, va, level, asWritten)
         == MaskStep(PathEntry(t, pt, va, level), Masked(t, pt, va, level - 1, asWritten), asWritten)
  {
  }

  /** With the mask as vm.c writes it, level 0 always loses W and U, so level 1
      keeps them, level 2 loses those level 1 has, and the leaf loses those
      level 2 kept: the leaf's W (or U) survives unless level 2 has it and
      level 1 does not. */
  lemma LookupAsWrittenPerm(t: Tables, pt: U64, va: U64)
    requires PathPresent(t, pt, va)
    ensures var m := VirtualMemoryLookup(t, pt, va);
      var e1 := PathEntry(t, pt, va, 1);
      var e2 := PathEntry(t, pt, va, 2);
      var e3 := PathEntry(t, pt, va, 3);
      && IsWritable(m.perm) == (IsWritable(e3) && (IsWritable(e2) ==> IsWritable(e1)))
      && IsUser(m.perm) == (IsUser(e3) && (IsUser(e2) ==> IsUser(e1)))
  {
    LookupSpec(t, pt, va, true);
    FlagsOfPteFlags(Masked(t, pt, va, 3, true));
    MaskedAsWrittenBits(t, pt, va);
  }

  /** The W and U bits the mask as vm.c writes it leaves at the leaf. */
  lemma MaskedAsWrittenBits(t: Tables, pt: U64, va: U64)
    ensures var e1, e2, e3 := PathEntry(t, pt, va, 1), PathEntry(t, pt, va, 2), PathEntry(t, pt, va, 3);
      && IsWritable(Masked(t, pt, va, 3, true)) == (IsWritable(e3) && (IsWritable(e2) ==> IsWritable(e1)))
      && IsUser(Masked(t, pt, va, 3, true)) == (IsUser(e3) && (IsUser(e2) ==> IsUser(e1)))
  {
    assert IsWritable(PTE_PWU) && IsUser(PTE_PWU);
    MaskedStep(t, pt, va, 1, true);
    MaskedStep(t, pt, va, 2, true);
    MaskedStep(t, pt, va, 3, true);
  }

  /** The consequence `virtual_memory_init` relies on: when level 1 grants W
      and U (in particular when every level carries P|W|U), the reported
      permission is exactly the leaf's flag word. */
  lemma LookupAsWrittenLeafPerm(t: Tables, pt: U64, va: U64)
    requires PathPresent(t, pt, va)
    requires IsWritable(PathEntry(t, pt, va, 1)) && IsUser(PathEntry(t, pt, va, 1))
    ensures VirtualMemoryLookup(t, pt, va).perm == PteFlags(PathEntry(t, pt, va, 3))
  {
    var leaf := PathEntry(t, pt, va, 3);
    LookupSpec(t, pt, va, true);
    LookupAsWrittenPerm(t, pt, va);
    FlagsOfPteFlags(leaf);
    assert IsPresent(leaf);
    FlagsEqual(VirtualMemoryLookup(t, pt, va).perm, PteFlags(leaf));
  }

  /** On paths whose upper three levels grant W and U (every table the kernel
      builds) the two masks give the same lookup. */
  lemma LookupMasksAgree(t: Tables, pt: U64, va: U64)
    requires forall level | 0 <= level <= 2 ::
      IsWritable(PathEntry(t, pt, va, level)) && IsUser(PathEntry(t, pt, va, level))
    ensures VirtualMemoryLookup(t, pt, va) == VirtualMemoryLookupIntended(t, pt, va)
  {
    LookupSpec(t, pt, va, true);
    LookupSpec(t, pt, va, false);
    if PathPresent(t, pt, va) {
      assert IsWritable(PathEntry(t, pt, va, 1)) && IsUser(PathEntry(t, pt, va, 1));
      LookupAsWrittenPerm(t, pt, va);
      LookupIntendedPerm(t, pt, va);
      var a := VirtualMemoryLookup(t, pt, va);
      var b := VirtualMemoryLookupIntended(t, pt, va);
      assert IsWritable(PathEntry(t, pt, va, 0)) && IsUser(PathEntry(t, pt, va, 0));
      assert IsWritable(PathEntry(t, pt, va, 2)) && IsUser(PathEntry(t, pt, va, 2));
      assert IsWritable(a.perm) == IsWritable(b.perm);
      assert IsUser(a.perm) == IsUser(b.perm);
      FlagsEqual(a.perm, b.perm);
    }
  }

  /** The conditions under which a leaf `x | perm` is reached through upper
      entries that are present and grant every W and U `perm` asks for. */
  predicate SaneLeafPath(t: Tables, pt: U64, va: U64, x: U64, perm: int)
  {
    && x % 4096 == 0 && x + PAGESIZE <= TWO_64 && 0 <= perm < 0x1000 && IsPresent(perm)
    && (forall level | 0 <= level <= 2 ::
          IsPresent(PathEntry(t, pt, va, level)) && EntrySane(PathEntry(t, pt, va, level), perm))
    && PathEntry(t, pt, va, 3) == MakePte(x, perm)
  }

  /** Such a path is present, and its leaf carries exactly `perm`. */
  lemma SaneLeafPresent(t: Tables, pt: U64, va: U64, x: U64, perm: int)
    requires SaneLeafPath(t, pt, va, x, perm)
    ensures PathPresent(t, pt, va)
    ensures PteFlags(PathEntry(t, pt, va, 3)) == perm && PteAddr(PathEntry(t, pt, va, 3)) == x
    ensures PageNumber(PathEntry(t, pt, va, 3)) == PageNumber(x)
    ensures IsWritable(perm) ==> IsWritable(PathEntry(t, pt, va, 0)) && IsWritable(PathEntry(t, pt, va, 1))
                                  && IsWritable(PathEntry(t, pt, va, 2))
    ensures IsUser(perm) ==> IsUser(PathEntry(t, pt, va, 0)) && IsUser(PathEntry(t, pt, va, 1))
                              && IsUser(PathEntry(t, pt, va, 2))
  {
    var leaf := PathEntry(t, pt, va, 3);
    PteRoundTrip(x, perm);
    FlagsOfPteFlags(leaf);
    PageNumberOfPteAddr(leaf);
    assert IsPresent(PathEntry(t, pt, va, 0)) && IsPresent(PathEntry(t, pt, va, 1));
    assert IsPresent(PathEntry(t, pt, va, 2));
  }

  /** `va` lies at address `y` of the page `x` that a sane leaf path maps. */
  predicate LeafAt(t: Tables, pt: U64, va: U64, x: U64, y: U64, perm: int)
  {
    SaneLeafPath(t, pt, va, x, perm) && y == x + PageOffset(va) && PageNumber(y) == PageNumber(x)
  }

  /** A leaf `x | perm` on a sane path looks up, through the mask as vm.c
      writes it, to page `x` with permission exactly `perm`. */
  lemma LookupOfLeaf(t: Tables, pt: U64, va: U64, x: U64, y: U64, perm: int)
    requires LeafAt(t, pt, va, x, y, perm)
    ensures VirtualMemoryLookup(t, pt, va) == VAMapping(PageNumber(y), y, perm)
  {
    SaneLeafPresent(t, pt, va, x, perm);
    FlagsOfPteFlags(PathEntry(t, pt, va, 3));
    LookupSpec(t, pt, va, true);
    LookupAsWrittenPerm(t, pt, va);
    FlagsEqual(VirtualMemoryLookup(t, pt, va).perm, perm);
  }

  /** The same leaf looks up to the same mapping through the conventional
      mask. */
  lemma LookupIntendedOfLeaf(t: Tables, pt: U64, va: U64, x: U64, y: U64, perm: int)
    requires LeafAt(t, pt, va, x, y, perm)
    ensures VirtualMemoryLookupIntended(t, pt, va) == VAMapping(PageNumber(y), y, perm)
  {
    SaneLeafPresent(t, pt, va, x, perm);
    FlagsOfPteFlags(PathEntry(t, pt, va, 3));
    LookupSpec(t, pt, va, false);
    IntendedPermBits(t, pt, va);
    FlagsEqual(VirtualMemoryLookupIntended(t, pt, va).perm, perm);
  }

  /** Both masks look up a sane leaf to the same mapping. */
  lemma LookupsOfLeaf(t: Tables, pt: U64, va: U64, x: U64, y: U64, perm: int)
    requires LeafAt(t, pt, va, x, y, perm)
    ensures VirtualMemoryLookup(t, pt, va) == VAMapping(PageNumber(y), y, perm)
    ensures VirtualMemoryLookupIntended(t, pt, va) == VAMapping(PageNumber(y), y, perm)
  {
    LookupOfLeaf(t, pt, va, x, y, perm);
    LookupIntendedOfLeaf(t, pt, va, x, y, perm);
  }

  /** The tables of the model's counterexample to the lookup mask: a root at
      0x1000 whose entry 0 is present but neither writable nor user-accessible,
      and three further levels that carry P|W|U. */
  function MaskCounterexample(): Tables
  {
    map[0x1000 := ZeroTable()[0 := 0x2001],
        0x2000 := ZeroTable()[0 := 0x3007],
        0x3000 := ZeroTable()[0 := 0x4007],
        0x4000 := ZeroTable()[0 := 0x5007]]
  }

  /** The mask `~(pe & (PTE_W|PTE_U))` lets a lookup report W and U when the
      level-0 entry grants neither, as long as the levels below do; the
      conventional mask withholds them. */
  lemma LookupMaskGrantsTooMuch(t: Tables, pt: U64, va: U64)
    requires PathPresent(t, pt, va)
    requires !IsWritable(PathEntry(t, pt, va, 0)) && !IsUser(PathEntry(t, pt, va, 0))
    requires IsWritable(PathEntry(t, pt, va, 1)) && IsUser(PathEntry(t, pt, va, 1))
    requires IsWritable(PathEntry(t, pt, va, 3)) && IsUser(PathEntry(t, pt, va, 3))
    ensures IsWritable(VirtualMemoryLookup(t, pt, va).perm) && IsUser(VirtualMemoryLookup(t, pt, va).perm)
    ensures !IsWritable(VirtualMemoryLookupIntended(t, pt, va).perm)
    ensures !IsUser(VirtualMemoryLookupIntended(t, pt, va).perm)
  {
    LookupAsWrittenPerm(t, pt, va);
    LookupIntendedPerm(t, pt, va);
  }

  /** Such tables exist: in `MaskCounterexample` address 0 is reached through
      a level-0 entry with P only, and the lookup still reports W and U. */
  lemma LookupMaskFinding()
    ensures var t := MaskCounterexample();
      && !IsWritable(PathEntry(t, 0x1000, 0, 0)) && !IsUser(PathEntry(t, 0x1000, 0, 0))
      && IsWritable(VirtualMemoryLookup(t, 0x1000, 0).perm)
      && IsUser(VirtualMemoryLookup(t, 0x1000, 0).perm)
      && !IsWritable(VirtualMemoryLookupIntended(t, 0x1000, 0).perm)
  {
    CounterexamplePath();
    var t := MaskCounterexample();
    assert PathPresent(t, 0x1000, 0);
    LookupMaskGrantsTooMuch(t, 0x1000, 0);
  }

  lemma CounterexamplePath()
    ensures var t := MaskCounterexample();
      && PathEntry(t, 0x1000, 0, 0) == 0x2001 && PathEntry(t, 0x1000, 0, 1) == 0x3007
      && PathEntry(t, 0x1000, 0, 2) == 0x4007 && PathEntry(t, 0x1000, 0, 3) == 0x5007
  {
    var t := MaskCounterexample();
    assert PageIndex(0, 0) == 0 && PageIndex(0, 1) == 0 && PageIndex(0, 2) == 0 && PageIndex(0, 3) == 0;
    assert Entry(t, 0x1000, 0) == 0x2001;
    assert PteAddr(0x2001) == 0x2000;
    assert Entry(t, 0x2000, 0) == 0x3007;
    assert PteAddr(0x3007) == 0x3000;
    assert Entry(t, 0x3000, 0) == 0x4007;
    assert PteAddr(0x4007) == 0x4000;
    assert Entry(t, 0x4000, 0) == 0x5007;
  }

  // ---------------------------------------------------------------- lookup_l1pagetable

  /** What `lookup_l1pagetable` gives back: a kernel panic from a failed
      assertion, or a table pointer, 0 standing for NULL. */
  datatype L1Result = L1Panic | L1Ptr(addr: U64)

  /** The sanity assertions on a present intermediate entry: a sensible
      address, and every permission the caller asks for among W and U. */
  predicate EntrySane(pe: U64, perm: int)
  {
    PteAddr(pe) < MEMSIZE_PHYSICAL
    && (IsWritable(perm) ==> IsWritable(pe))
    && (IsUser(perm) ==> IsUser(pe))
  }

  /** The loop of `lookup_l1pagetable` from `level` on (levels 0 to 2). */
  function L1Walk(t: Tables, pt: U64, va: U64, perm: int, level: nat): L1Result
    requires level <= 3
    decreases 3 - level
  {
    if level == 3 then L1Ptr(pt)
    else
      var pe := Entry(t, pt, PageIndex(va, level));
      if !IsPresent(pe) then L1Ptr(0)
      else if !EntrySane(pe, perm) then L1Panic
      else L1Walk(t, PteAddr(pe), va, perm, level + 1)
  }

  /** `lookup_l1pagetable(pagetable, va, perm)`: the level-1 table of `va`,
      NULL when an entry of levels 0 to 2 is not present. */
  function LookupL1(t: Tables, pagetable: U64, va: U64, perm: int): (r: L1Result)
    ensures r.L1Ptr? && r.addr != 0 ==> r.addr == PathTable(t, pagetable, va, 3)
    ensures !IsPresent(PathEntry(t, pagetable, va, 0)) ==> r == L1Ptr(0)
  {
    L1Walk(t, pagetable, va, perm, 0)
  }

  /** `lookup_l1pagetable` stops with NULL at the first missing level, panics
      at the first present entry that fails a sanity check, and otherwise
      returns the table named by the level-2 entry. */
  lemma LookupL1Spec(t: Tables, pt: U64, va: U64, perm: int)
    ensures var e0, e1, e2 := PathEntry(t, pt, va, 0), PathEntry(t, pt, va, 1), PathEntry(t, pt, va, 2);
      LookupL1(t, pt, va, perm)
      == if !IsPresent(e0) then L1Ptr(0) else if !EntrySane(e0, perm) then L1Panic
         else if !IsPresent(e1) then L1Ptr(0) else if !EntrySane(e1, perm) then L1Panic
         else if !IsPresent(e2) then L1Ptr(0) else if !EntrySane(e2, perm) then L1Panic
         else L1Ptr(PathTable(t, pt, va, 3))
  {
    var e0, e1, e2 := PathEntry(t, pt, va, 0), PathEntry(t, pt, va, 1), PathEntry(t, pt, va, 2);
    assert LookupL1(t, pt, va, perm) == (if !IsPresent(e0) then L1Ptr(0) else if !EntrySane(e0, perm) then L1Panic
      else L1Walk(t, PathTable(t, pt, va, 1), va, perm, 1));
    if IsPresent(e0) && EntrySane(e0, perm) {
      assert L1Walk(t, PathTable(t, pt, va, 1), va, perm, 1)
          == (if !IsPresent(e1) then L1Ptr(0) else if !EntrySane(e1, perm) then L1Panic
              else L1Walk(t, PathTable(t, pt, va, 2), va, perm, 2));
      if IsPresent(e1) && EntrySane(e1, perm) {
        assert L1Walk(t, PathTable(t, pt, va, 2), va, perm, 2)
            == (if !IsPresent(e2) then L1Ptr(0) else if !EntrySane(e2, perm) then L1Panic
                else L1Walk(t, PathTable(t, pt, va, 3), va, perm, 3));
      }
    }
  }

  /** A non-null result of `lookup_l1pagetable` vouches for the three upper
      entries: present, sane, and granting the requested W and U. */
  lemma LookupL1Found(t: Tables, pt: U64, va: U64, perm: int)
    requires LookupL1(t, pt, va, perm).L1Ptr? && LookupL1(t, pt, va, perm).addr != 0
    ensures forall level | 0 <= level <= 2 ::
      IsPresent(PathEntry(t, pt, va, level)) && EntrySane(PathEntry(t, pt, va, level), perm)
    ensures LookupL1(t, pt, va, perm).addr == PathTable(t, pt, va, 3)
  {
    LookupL1Spec(t, pt, va, perm);
  }

  /** The tables `lookup_l1pagetable` reads for `va`. */
  function UpperTables(t: Tables, pt: U64, va: U64): set<U64>
  {
    {PathTable(t, pt, va, 0), PathTable(t, pt, va, 1), PathTable(t, pt, va, 2)}
  }

  /** Writing an entry of a table that is not an upper table of `va` changes
      neither the upper tables of `va` nor what `lookup_l1pagetable` finds. */
  lemma WriteOutsideUpper(t: Tables, pt: U64, va: U64, perm: int, tb: U64, i: nat, v: U64)
    requires i < NPAGETABLEENTRIES && tb !in UpperTables(t, pt, va)
    ensures var t' := SetEntry(t, tb, i, v);
      && UpperTables(t', pt, va) == UpperTables(t, pt, va)
      && LookupL1(t', pt, va, perm) == LookupL1(t, pt, va, perm)
      && (forall level | 0 <= level <= 2 :: PathEntry(t', pt, va, level) == PathEntry(t, pt, va, level))
      && PathTable(t', pt, va, 3) == PathTable(t, pt, va, 3)
  {
    var t' := SetEntry(t, tb, i, v);
    assert PathEntry(t', pt, va, 0) == PathEntry(t, pt, va, 0);
    assert PathEntry(t', pt, va, 1) == PathEntry(t, pt, va, 1);
    assert PathEntry(t', pt, va, 2) == PathEntry(t, pt, va, 2);
    LookupL1Spec(t, pt, va, perm);
    LookupL1Spec(t', pt, va, perm);
  }

  /** Addresses on one page share their whole path: every table and entry
      of the walk depends only on the page number. */
  lemma SamePagePath(t: Tables, pt: U64, x: U64, y: U64)
    requires x / 0x1000 == y / 0x1000
    ensures forall level | 0 <= level <= 3 :: PathEntry(t, pt, x, level) == PathEntry(t, pt, y, level)
  {
    DivDiv(x, 0x1000, 512);
    DivDiv(y, 0x1000, 512);
    UpperIndicesBy2M(x, y, 0);
    UpperIndicesBy2M(x, y, 1);
    UpperIndicesBy2M(x, y, 2);
    assert PathEntry(t, pt, x, 0) == PathEntry(t, pt, y, 0);
    assert PathEntry(t, pt, x, 1) == PathEntry(t, pt, y, 1);
    assert PathEntry(t, pt, x, 2) == PathEntry(t, pt, y, 2);
    assert PathEntry(t, pt, x, 3) == PathEntry(t, pt, y, 3);
  }

  /** Addresses in one 2 MiB region share their upper walk. */
  lemma SameRegionWalk(t: Tables, pt: U64, a: U64, b: U64, perm: int)
    requires a / 0x20_0000 == b / 0x20_0000
    ensures LookupL1(t, pt, a, perm) == LookupL1(t, pt, b, perm)
    ensures UpperTables(t, pt, a) == UpperTables(t, pt, b)
  {
    UpperIndicesBy2M(a, b, 0);
    UpperIndicesBy2M(a, b, 1);
    UpperIndicesBy2M(a, b, 2);
    assert PathEntry(t, pt, a, 0) == PathEntry(t, pt, b, 0);
    assert PathEntry(t, pt, a, 1) == PathEntry(t, pt, b, 1);
    assert PathEntry(t, pt, a, 2) == PathEntry(t, pt, b, 2);
    LookupL1Spec(t, pt, a, perm);
    LookupL1Spec(t, pt, b, perm);
  }
}
