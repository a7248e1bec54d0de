/** The kernel's state and the bookkeeping of `kernel.c` around it: the
    process table, `run`, `schedule`, `syscall_mem_tog`, `syscall_mapping`,
    the Rust `syscall_pagefault`, and the invariants `check_virtual_memory`
    asserts. */
module KernelState {
  import opened Wrappers
  import opened X86
  import opened Layout
  import opened PageTables
  import opened KernelPageTable
  import opened PhysicalPages
  import Elf

  /** The saved registers the kernel reads or writes. */
  datatype Registers = Registers(rax: U64, rsi: U64, rdi: U64, intno: U64, err: U64, rip: U64, rsp: U64)

  /** A process descriptor; `memory` holds the bytes the loader stored in its
      address space. */
  datatype Proc = Proc(pid: I32, regs: Registers, state: ProcState, pagetable: U64, displayStatus: Byte,
                       memory: map<U64, Byte>)

  /** The kernel's globals: `processes`, `pageinfo`, the page-table memory,
      the other physical bytes the kernel writes, `current` (an index into
      `processes`), `ticks`, `disp_global`, and the number of `palloc` calls
      made so far. */
  datatype KState = KState(procs: seq<Proc>, pageinfo: seq<PageInfo>, tables: Tables, physical: map<U64, Byte>,
                           current: nat, ticks: U32, dispGlobal: Byte, pallocCalls: nat)
  {
    /** `NPROC` slots, slot `i` holding process `i`, one `pageinfo` entry per
        page, and `current` pointing into the table. */
    predicate Valid()
    {
      |procs| == NPROC && WellSized(pageinfo) && current < NPROC
      && forall i | 0 <= i < NPROC :: procs[i].pid == i
    }

    function Current(): Proc
      requires Valid()
    {
      procs[current]
    }
  }

  /** Replacing process `pid` by a descriptor with the same pid. */
  function SetProc(s: KState, pid: nat, p: Proc): (r: KState)
    requires s.Valid() && pid < NPROC && p.pid == pid
    ensures r.Valid() && r.procs[pid] == p && r.current == s.current
    ensures forall q | 0 <= q < NPROC && q != pid :: r.procs[q] == s.procs[q]
  {
    s.(procs := s.procs[pid := p])
  }

  /** Storing `v` in the current process's `rax`. */
  function SetRax(s: KState, v: U64): (r: KState)
    requires s.Valid()
    ensures r.Valid() && r.Current().regs.rax == v
  {
    var p := s.Current();
    SetProc(s, s.current, p.(regs := p.regs.(rax := v)))
  }

  /** Setting the current process's state. */
  function SetState(s: KState, st: ProcState): (r: KState)
    requires s.Valid()
    ensures r.Valid() && r.Current().state == st
  {
    SetProc(s, s.current, s.Current().(state := st))
  }

  /** How a trap ends: a kernel panic, `schedule` spinning because no
      process is runnable, or a return to user mode in `s.current`. */
  datatype Outcome = Panicked | Spinning | Running(s: KState)

  // ---------------------------------------------------------------- run and schedule

  /** `run(p)`: asserts that `p` is runnable, makes it current and loads its
      page table; the register restore is not modelled. */
  function Run(vm: Vm, s: KState, pid: nat): (o: Outcome)
    requires s.Valid() && pid < NPROC
    ensures s.procs[pid].state != Runnable ==> o == Panicked
    ensures o.Running? ==> o.s == s.(current := pid) && s.procs[pid].state == Runnable
  {
    if s.procs[pid].state != Runnable then Panicked
    else match vm.setPagetable(s.tables, s.procs[pid].pagetable)
      case None => Panicked
      case Some(_) => Running(s.(current := pid))
  }

  /** The pid `schedule` tries on its `k`-th step from `from`. */
  function Candidate(from: nat, k: nat): nat
  {
    (from + k) % NPROC
  }

  /** How many steps `schedule` takes from `from` to reach `q`: 1 for the
      next pid, `NPROC` for `from` itself. */
  function Distance(from: nat, q: nat): nat
  {
    (q - from - 1) % NPROC + 1
  }

  lemma DistanceOfCandidate(from: nat, k: nat)
    requires from < NPROC && 1 <= k <= NPROC
    ensures Distance(from, Candidate(from, k)) == k
  {
  }

  lemma CandidateOfDistance(from: nat, q: nat)
    requires from < NPROC && q < NPROC
    ensures 1 <= Distance(from, q) <= NPROC && Candidate(from, Distance(from, q)) == q
  {
  }

  /** The first runnable candidate from step `k` on. */
  function FirstRunnable(s: KState, k: nat): (r: Option<nat>)
    requires s.Valid() && k >= 1
    ensures r.Some? ==> r.value < NPROC && s.procs[r.value].state == Runnable
    decreases NPROC + 1 - k
  {
    if k > NPROC then None
    else if s.procs[Candidate(s.current, k)].state == Runnable then Some(Candidate(s.current, k))
    else FirstRunnable(s, k + 1)
  }

  lemma {:induction false} FirstRunnableSpec(s: KState, k: nat)
    requires s.Valid() && k >= 1
    ensures var r := FirstRunnable(s, k);
      && (r.Some? ==> (r.value < NPROC && s.procs[r.value].state == Runnable
                      && k <= Distance(s.current, r.value) <= NPROC
                      && forall q | 0 <= q < NPROC && k <= Distance(s.current, q) < Distance(s.current, r.value) ::
                           s.procs[q].state != Runnable))
      && (r.None? ==> forall q | 0 <= q < NPROC && k <= Distance(s.current, q) :: s.procs[q].state != Runnable)
    decreases NPROC + 1 - k
  {
    if k <= NPROC {
      DistanceOfCandidate(s.current, k);
      if s.procs[Candidate(s.current, k)].state != Runnable {
        FirstRunnableSpec(s, k + 1);
        forall q | 0 <= q < NPROC && Distance(s.current, q) == k
          ensures s.procs[q].state != Runnable
        {
          CandidateOfDistance(s.current, q);
        }
      }
    } else {
      forall q | 0 <= q < NPROC
        ensures Distance(s.current, q) <= NPROC
      {
        CandidateOfDistance(s.current, q);
      }
    }
  }

  /** `schedule()`: from the pid after the current one, cyclically, run the
      first runnable process; with none it spins forever. Whatever it
      returns to is a runnable process, with nothing else changed. */
  function Schedule(vm: Vm, s: KState): (o: Outcome)
    requires s.Valid()
    ensures o.Running? ==> (o.s == s.(current := o.s.current) && o.s.current < NPROC
      && o.s.Valid() && s.procs[o.s.current].state == Runnable)
  {
    match FirstRunnable(s, 1)
    case None => Spinning
    case Some(pid) => Run(vm, s, pid)
  }

  /** `schedule` spins exactly when no process is runnable, the current one
      included; otherwise it switches to the first runnable pid in cyclic
      order after the current one. */
  lemma ScheduleSpec(vm: Vm, s: KState)
    requires s.Valid()
    ensures Schedule(vm, s) == Spinning <==> forall q | 0 <= q < NPROC :: s.procs[q].state != Runnable
    ensures var o := Schedule(vm, s);
      o.Running? ==> forall q | 0 <= q < NPROC && Distance(s.current, q) < Distance(s.current, o.s.current) ::
        s.procs[q].state != Runnable
  {
    FirstRunnableSpec(s, 1);
    DistancesPositive(s.current);
  }

  lemma DistancesPositive(from: nat)
    requires from < NPROC
    ensures forall q | 0 <= q < NPROC :: 1 <= Distance(from, q)
  {
    forall q | 0 <= q < NPROC
      ensures 1 <= Distance(from, q)
    {
      CandidateOfDistance(from, q);
    }
  }

  // ---------------------------------------------------------------- syscall_mem_tog

  /** C's `!x` on a `uint8_t`. */
  function LogicalNot(b: Byte): (r: Byte)
    ensures r == 0 <==> b != 0
    ensures r <= 1
  {
    if b == 0 then 1 else 0
  }

  /** `syscall_mem_tog(current)`: the pid in `rdi` (its low 32 bits) is 0 to
      flip the global display flag, or the caller's own pid to flip its
      own; any other value changes nothing. */
  function SyscallMemTog(s: KState): (r: KState)
    requires s.Valid()
    ensures r.Valid()
    ensures r.procs[s.current].regs == s.Current().regs && r.current == s.current
    ensures ToI32(s.Current().regs.rdi) == 0 ==> r == s.(dispGlobal := LogicalNot(s.dispGlobal))
    ensures ToI32(s.Current().regs.rdi) == s.current != 0 ==>
      r == s.(procs := s.procs[s.current := s.Current().(displayStatus := LogicalNot(s.Current().displayStatus))])
    ensures ToI32(s.Current().regs.rdi) != 0 && ToI32(s.Current().regs.rdi) != s.current ==> r == s
  {
    var p := ToI32(s.Current().regs.rdi);
    if p == 0 then s.(dispGlobal := LogicalNot(s.dispGlobal))
    else if p < 0 || p > NPROC || p != s.Current().pid then s
    else SetProc(s, s.current, s.Current().(displayStatus := LogicalNot(s.Current().displayStatus)))
  }

  /** Two identical `mem_tog` calls leave every flag as it was, once the
      flags hold 0 or 1 (as they do from their initial values on). */
  lemma MemTogTwice(s: KState)
    requires s.Valid() && s.dispGlobal <= 1 && s.Current().displayStatus <= 1
    ensures SyscallMemTog(SyscallMemTog(s)) == s
  {
    var p := ToI32(s.Current().regs.rdi);
    if p != 0 && p == s.current {
      var s1 := SyscallMemTog(s);
      assert s1.procs[s.current := s.Current()] == s.procs;
    }
  }

  // ---------------------------------------------------------------- syscall_mapping

  /** `sizeof(vamapping)`: `pn` (4 bytes), padding (4), `pa` (8), `perm` (4),
      padding (4). */
  const VAMAPPING_SIZE: nat := 24

  /** The bytes of a `vamapping`, little endian, `int` fields in two's
      complement. The eight padding bytes belong to an uninitialised stack
      variable in the C kernel, so their value is indeterminate; the model
      writes zeros there, and `MappingRoundTrip` reads only the fields. */
  function EncodeMapping(m: VAMapping): (b: seq<Byte>)
    ensures |b| == VAMAPPING_SIZE
  {
    Elf.Pow256Values();
    Elf.LeBytes(m.pn % TWO_32, 4) + [0, 0, 0, 0] + Elf.LeBytes(m.pa, 8)
      + Elf.LeBytes(m.perm % TWO_32, 4) + [0, 0, 0, 0]
  }

  /** A 32-bit two's-complement word read back as a signed number. */
  function Signed32(x: nat): int
  {
    if x < 0x8000_0000 then x else x - TWO_32
  }

  /** Reading a `vamapping` back from its 24 bytes. */
  function DecodeMapping(b: seq<Byte>): VAMapping
    requires |b| == VAMAPPING_SIZE
  {
    Elf.Pow256Values();
    var pa := Elf.LeValue(b[8..16]);
    VAMapping(Signed32(Elf.LeValue(b[0..4])), pa, Signed32(Elf.LeValue(b[16..20])))
  }

  /** The bytes `syscall_mapping` copies read back as the lookup they came
      from, for every mapping whose `int` fields fit in 32 bits. */
  lemma MappingRoundTrip(m: VAMapping)
    requires -0x8000_0000 <= m.pn < 0x8000_0000 && -0x8000_0000 <= m.perm < 0x8000_0000
    ensures DecodeMapping(EncodeMapping(m)) == m
  {
    Elf.Pow256Values();
    var b := EncodeMapping(m);
    assert b[0..4] == Elf.LeBytes(m.pn % TWO_32, 4);
    assert b[8..16] == Elf.LeBytes(m.pa, 8);
    assert b[16..20] == Elf.LeBytes(m.perm % TWO_32, 4);
    Elf.LeRoundTrip(m.pn % TWO_32, 4);
    Elf.LeRoundTrip(m.pa, 8);
    Elf.LeRoundTrip(m.perm % TWO_32, 4);
  }

  /** `memcpy` to physical address `at`, one byte after the other; addresses
      are 64-bit words. */
  function StoreBytes(mem: map<U64, Byte>, at: U64, src: seq<Byte>): map<U64, Byte>
    decreases |src|
  {
    if |src| == 0 then mem else StoreBytes(mem[at := src[0]], Offset(at, 1), src[1..])
  }

  /** The address `i` bytes after `at`, in a 64-bit address space. */
  function Offset(at: U64, i: nat): U64
  {
    (at + i) % TWO_64
  }

  /** Address `a` is one of the `n` a store from `at` writes. */
  predicate Stored(a: U64, at: U64, n: nat)
  {
    (a - at) % TWO_64 < n
  }

  lemma StoredIndex(at: U64, i: nat)
    requires i < TWO_64
    ensures (Offset(at, i) - at) % TWO_64 == i
  {
  }

  lemma StoredShift(a: U64, at: U64)
    requires a != at
    ensures (a - Offset(at, 1)) % TWO_64 == (a - at) % TWO_64 - 1
  {
  }

  lemma StoredSelf(at: U64)
    ensures (at - Offset(at, 1)) % TWO_64 == TWO_64 - 1
  {
  }

  lemma IndexShift(at: U64, i: nat)
    requires i >= 1
    ensures Offset(Offset(at, 1), i - 1) == Offset(at, i)
  {
  }

  /** After a store of fewer than 2^64 bytes, reading them back gives `src`. */
  lemma {:induction false} StoreBytesReads(mem: map<U64, Byte>, at: U64, src: seq<Byte>)
    requires |src| < TWO_64
    ensures forall i | 0 <= i < |src| :: Offset(at, i) in StoreBytes(mem, at, src)
                                       && StoreBytes(mem, at, src)[Offset(at, i)] == src[i]
    decreases |src|
  {
    if |src| > 0 {
      var next := Offset(at, 1);
      var mem' := mem[at := src[0]];
      var rest := StoreBytes(mem', next, src[1..]);
      StoreBytesReads(mem', next, src[1..]);
      StoreBytesFrame(mem', next, src[1..]);
      assert StoreBytes(mem, at, src) == rest;
      StoredSelf(at);
      assert !Stored(at, next, |src| - 1);
      forall i | 0 <= i < |src|
        ensures Offset(at, i) in rest && rest[Offset(at, i)] == src[i]
      {
        if i > 0 {
          IndexShift(at, i);
          assert src[1..][i - 1] == src[i];
        } else {
          assert Offset(at, i) == at;
        }
      }
    }
  }

  /** A store leaves every address outside it with its byte, or absent. */
  lemma {:induction false} StoreBytesFrame(mem: map<U64, Byte>, at: U64, src: seq<Byte>)
    requires |src| < TWO_64
    ensures forall a: U64 | !Stored(a, at, |src|) :: (a in StoreBytes(mem, at, src) <==> a in mem)
    ensures forall a: U64 | a in mem && !Stored(a, at, |src|) :: StoreBytes(mem, at, src)[a] == mem[a]
    decreases |src|
  {
    if |src| > 0 {
      var next := Offset(at, 1);
      var mem' := mem[at := src[0]];
      StoreBytesFrame(mem', next, src[1..]);
      assert StoreBytes(mem, at, src) == StoreBytes(mem', next, src[1..]);
      forall a: U64 | !Stored(a, at, |src|)
        ensures !Stored(a, next, |src| - 1) && a != at
      {
        StoredIndex(at, 0);
        StoredShift(a, at);
      }
    }
  }

  /** The result of `virtual_memory_lookup` grants both `a` and `b`. */
  predicate Grants(perm: int, a: nat, b: nat)
    requires a > 0 && b > 0
  {
    HasFlag(perm, a) && HasFlag(perm, b)
  }

  /** `syscall_mapping(p)` with the check on the record's last page as
      written: it compares the page of the record's last byte with the page
      of `ptr` (`rsi`) rather than with the record's own page. */
  function SyscallMappingAsWritten(vm: Vm, s: KState): (r: KState)
    requires s.Valid()
    ensures r.procs == s.procs && r.pageinfo == s.pageinfo && r.tables == s.tables
  {
    var p := s.Current();
    var mappingPtr, ptr := p.regs.rdi, p.regs.rsi;
    var map1 := vm.lookup(s.tables, p.pagetable, mappingPtr);
    if !Grants(map1.perm, PTE_W, PTE_U) then s
    else
      var endAddr := Offset(mappingPtr, VAMAPPING_SIZE - 1);
      if PageNumber(endAddr) != PageNumber(ptr) && !Grants(vm.lookup(s.tables, p.pagetable, endAddr).perm, PTE_W, PTE_P) then s
      else s.(physical := StoreBytes(s.physical, map1.pa, EncodeMapping(vm.lookup(s.tables, p.pagetable, ptr))))
  }

  /** `syscall_mapping(p)` as evidently intended: when the 24-byte record
      at `rdi` crosses into another page, that page must be writable too. */
  function SyscallMapping(vm: Vm, s: KState): (r: KState)
    requires s.Valid()
    ensures r.procs == s.procs && r.pageinfo == s.pageinfo && r.tables == s.tables
  {
    var p := s.Current();
    var mappingPtr, ptr := p.regs.rdi, p.regs.rsi;
    var map1 := vm.lookup(s.tables, p.pagetable, mappingPtr);
    if !Grants(map1.perm, PTE_W, PTE_U) then s
    else
      var endAddr := Offset(mappingPtr, VAMAPPING_SIZE - 1);
      if PageNumber(endAddr) != PageNumber(mappingPtr) && !Grants(vm.lookup(s.tables, p.pagetable, endAddr).perm, PTE_W, PTE_P) then s
      else s.(physical := StoreBytes(s.physical, map1.pa, EncodeMapping(vm.lookup(s.tables, p.pagetable, ptr))))
  }

  /** `syscall_mapping` either changes nothing or stores, at the physical
      address behind `rdi`, the bytes of the lookup of `rsi`; it stores only
      when the record's first page grants W and U and, should the record
      cross a page boundary, its last page grants W. */
  lemma SyscallMappingSpec(vm: Vm, s: KState)
    requires s.Valid()
    ensures var p := s.Current();
      var map1 := vm.lookup(s.tables, p.pagetable, p.regs.rdi);
      var endAddr := Offset(p.regs.rdi, VAMAPPING_SIZE - 1);
      var r := SyscallMapping(vm, s);
      && (r == s || r == s.(physical := StoreBytes(s.physical, map1.pa, EncodeMapping(vm.lookup(s.tables, p.pagetable, p.regs.rsi)))))
      && (r != s ==> (Grants(map1.perm, PTE_W, PTE_U)
                      && (PageNumber(endAddr) != PageNumber(p.regs.rdi) ==> HasFlag(vm.lookup(s.tables, p.pagetable, endAddr).perm, PTE_W))))
  {
  }

  /** Every byte of a 24-byte record that does not wrap lies on the page of
      its first byte or on the page of its last. */
  lemma RecordPages(at: U64, i: nat)
    requires i < VAMAPPING_SIZE && at + VAMAPPING_SIZE <= TWO_64
    ensures at + i < TWO_64
    ensures (at + i) / PAGESIZE == at / PAGESIZE || (at + i) / PAGESIZE == (at + VAMAPPING_SIZE - 1) / PAGESIZE
  {
  }

  /** The as-written check lets a record through whose last byte lies on a
      page that is not writable, as long as `rsi` points into that page:
      the corrected call then stores nothing, the as-written one stores. */
  lemma SyscallMappingAsWrittenSkipsCheck(vm: Vm, s: KState)
    requires s.Valid()
    requires var p := s.Current();
      var endAddr := Offset(p.regs.rdi, VAMAPPING_SIZE - 1);
      && Grants(vm.lookup(s.tables, p.pagetable, p.regs.rdi).perm, PTE_W, PTE_U)
      && PageNumber(endAddr) != PageNumber(p.regs.rdi) && PageNumber(endAddr) == PageNumber(p.regs.rsi)
      && !HasFlag(vm.lookup(s.tables, p.pagetable, endAddr).perm, PTE_W)
    ensures SyscallMapping(vm, s) == s
    ensures var p := s.Current();
      SyscallMappingAsWritten(vm, s)
        == s.(physical := StoreBytes(s.physical, vm.lookup(s.tables, p.pagetable, p.regs.rdi).pa,
                                     EncodeMapping(vm.lookup(s.tables, p.pagetable, p.regs.rsi))))
  {
  }

  /** A process whose `rdi` is 0x100FF0 on a writable page and whose `rsi`
      is 0x101000 on a page that is not: the record's last byte 0x101007 is
      on the second page, which the as-written call never checks. */
  lemma SyscallMappingCounterexample(vm: Vm, s: KState)
    requires s.Valid()
    requires s.Current().regs.rdi == 0x100FF0 && s.Current().regs.rsi == 0x101000
    requires Grants(vm.lookup(s.tables, s.Current().pagetable, 0x100FF0).perm, PTE_W, PTE_U)
    requires !HasFlag(vm.lookup(s.tables, s.Current().pagetable, 0x101007).perm, PTE_W)
    ensures SyscallMapping(vm, s) == s
    ensures var p := s.Current();
      var pa := vm.lookup(s.tables, p.pagetable, 0x100FF0).pa;
      var record := EncodeMapping(vm.lookup(s.tables, p.pagetable, 0x101000));
      forall i | 0 <= i < VAMAPPING_SIZE :: Offset(pa, i) in SyscallMappingAsWritten(vm, s).physical
        && SyscallMappingAsWritten(vm, s).physical[Offset(pa, i)] == record[i]
  {
    var p := s.Current();
    assert PageNumber(0x101007) == 0x101 && PageNumber(0x101000) == 0x101 && PageNumber(0x100FF0) == 0x100;
    SyscallMappingAsWrittenSkipsCheck(vm, s);
    var pa := vm.lookup(s.tables, p.pagetable, 0x100FF0).pa;
    StoreBytesReads(s.physical, pa, EncodeMapping(vm.lookup(s.tables, p.pagetable, 0x101000)));
  }

  // ---------------------------------------------------------------- syscall_pagefault

  /** The Rust `syscall_pagefault(msg)`: nothing for a null message, and
      otherwise the current process becomes broken (the console message is
      not modelled). */
  function SyscallPagefault(s: KState, msgIsNull: bool): (r: KState)
    requires s.Valid()
    ensures r.Valid()
    ensures msgIsNull ==> r == s
    ensures !msgIsNull ==> (r.Current().state == Broken
      && r == s.(procs := s.procs[s.current := s.Current().(state := Broken)]))
  {
    if msgIsNull then s else SetState(s, Broken)
  }

  // ---------------------------------------------------------------- check_virtual_memory

  /** `check_page_table_mappings(pt)`: `pt` is page aligned, the kernel's
      image `[KERNEL_START_ADDR, end)` is identity mapped and writable from
      `start_data` on, and so is the kernel stack page. */
  predicate KernelMappings(vm: Vm, t: Tables, pt: U64, end: U64, startData: U64)
  {
    && pt % PAGESIZE == 0
    && (forall va: U64 | KERNEL_START_ADDR <= va < end && va % PAGESIZE == 0 :: KernelPageMapped(vm, t, pt, startData, va))
    && var m := vm.lookup(t, pt, KERNEL_STACK_TOP - PAGESIZE);
       m.pa == KERNEL_STACK_TOP - PAGESIZE && HasFlag(m.perm, PTE_W)
  }

  predicate KernelPageMapped(vm: Vm, t: Tables, pt: U64, startData: U64, va: U64)
  {
    var m := vm.lookup(t, pt, va);
    m.pa == va && (va >= startData ==> HasFlag(m.perm, PTE_W))
  }

  /** `check_page_table_ownership_level(pt, level, owner, refcount)`: the
      table's page is a physical page owned by `owner` with `refcount`
      references, and below level 3 so is every table a non-zero entry
      points to, with one reference each. */
  predicate OwnedTables(t: Tables, pi: seq<PageInfo>, pt: U64, level: nat, owner: int, refcount: int)
    requires WellSized(pi) && level <= 3
    decreases 3 - level
  {
    var pn := PageNumber(pt);
    && 0 <= pn < NPAGES && pi[pn].owner == owner && pi[pn].refcount == refcount
    && (level < 3 ==> forall i | 0 <= i < NPAGETABLEENTRIES ::
          Entry(t, pt, i) != 0 ==> OwnedTables(t, pi, PteAddr(Entry(t, pt, i)), level + 1, owner, 1))
  }

  /** The number of live processes among the first `n` that run on the
      kernel's page table. */
  function KernelTableUsers(s: KState, kpt: U64, n: nat): (c: nat)
    requires s.Valid() && n <= NPROC
    ensures c <= n
  {
    if n == 0 then 0
    else KernelTableUsers(s, kpt, n - 1) + (if s.procs[n - 1].state != Free && s.procs[n - 1].pagetable == kpt then 1 else 0)
  }

  /** Every referenced page owned by a process belongs to a live one.
      kernel.c indexes `processes` by the `int8_t` owner without a bound,
      so an owner from NPROC to 127 reads past the array there; the model
      counts such an owner as a failed check instead. */
  predicate PagesOwnedByLive(s: KState)
    requires s.Valid()
  {
    forall pn | 0 <= pn < NPAGES ::
      s.pageinfo[pn].refcount > 0 && s.pageinfo[pn].owner >= 0 ==>
        s.pageinfo[pn].owner < NPROC && s.procs[s.pageinfo[pn].owner].state != Free
  }

  /** A process with a page table of its own. */
  predicate OwnTable(vm: Vm, s: KState, pid: nat)
    requires s.Valid() && pid < NPROC
  {
    s.procs[pid].state != Free && s.procs[pid].pagetable != vm.kernelPagetable
  }

  /** Everything `check_virtual_memory()` asserts: process 0 is free, the
      kernel's table maps the kernel and is owned by the kernel with one
      reference plus one per live process using it, each live process with
      a table of its own has it mapped and owned likewise with one
      reference, and every referenced page a process owns belongs to a live
      process. */
  predicate VirtualMemoryChecked(vm: Vm, s: KState, end: U64, startData: U64)
    requires s.Valid()
  {
    var kpt := vm.kernelPagetable;
    && s.procs[0].state == Free
    && KernelMappings(vm, s.tables, kpt, end, startData)
    && OwnedTables(s.tables, s.pageinfo, kpt, 0, PO_KERNEL, 1 + KernelTableUsers(s, kpt, NPROC))
    && (forall pid | 0 <= pid < NPROC && OwnTable(vm, s, pid) ::
          KernelMappings(vm, s.tables, s.procs[pid].pagetable, end, startData)
          && OwnedTables(s.tables, s.pageinfo, s.procs[pid].pagetable, 0, pid, 1))
    && PagesOwnedByLive(s)
  }

  /** `assign_physical_page` never hands out a page-table page: every table
      of a checked tree has a non-zero reference count, so assigning a page
      leaves the ownership of the whole tree as it was. */
  lemma {:induction false} AssignKeepsTables(t: Tables, pi: seq<PageInfo>, pt: U64, level: nat, owner: int, refcount: int,
                                             addr: U64, newOwner: I8)
    requires WellSized(pi) && level <= 3 && refcount != 0
    requires OwnedTables(t, pi, pt, level, owner, refcount)
    ensures OwnedTables(t, AssignPhysicalPage(pi, addr, newOwner).1, pt, level, owner, refcount)
    decreases 3 - level
  {
    var pi' := AssignPhysicalPage(pi, addr, newOwner).1;
    if level < 3 {
      forall i | 0 <= i < NPAGETABLEENTRIES && Entry(t, pt, i) != 0
        ensures OwnedTables(t, pi', PteAddr(Entry(t, pt, i)), level + 1, owner, 1)
      {
        AssignKeepsTables(t, pi, PteAddr(Entry(t, pt, i)), level + 1, owner, 1, addr, newOwner);
      }
    }
  }

  /** A page assigned to a live process keeps every owned page with a live
      owner. */
  lemma AssignKeepsOwnersLive(s: KState, addr: U64, owner: I8)
    requires s.Valid() && PagesOwnedByLive(s)
    requires 0 <= owner < NPROC && s.procs[owner].state != Free
    ensures PagesOwnedByLive(s.(pageinfo := AssignPhysicalPage(s.pageinfo, addr, owner).1))
  {
  }
}
