/** The trap handler `exception(reg)` twice: as `kernel.c` writes it and as
    the Rust `kernel.rs` writes it. Calls into code outside the model
    (`process_fork`, `process_free`, `process_page_alloc`,
    `default_exception`) are the fields of `Externals`. */
module Traps {
  import opened Wrappers
  import opened X86
  import opened Layout
  import opened VirtualMemory
  import opened KernelPageTable
  import opened PhysicalPages
  import opened KernelState

  /** The calls the handlers make into code the model does not define. */
  datatype Externals = Externals(
    fork: KState -> (KState, I32),
    free: (KState, I32) -> KState,
    pageAlloc: (KState, U64) -> (KState, int),
    defaultException: KState -> Outcome)

  /** What the model takes for granted about those calls: they keep the
      process table well formed, `process_free(pid)` leaves `pid` free, and
      `default_exception` does not return to user mode. */
  ghost predicate Sound(ext: Externals)
  {
    && (forall s: KState | s.Valid() :: ext.fork(s).0.Valid())
    && (forall s: KState, pid: I32 | s.Valid() :: ext.free(s, pid).Valid())
    && (forall s: KState, pid: I32 | s.Valid() && 0 <= pid < NPROC :: ext.free(s, pid).procs[pid].state == Free)
    && (forall s: KState, addr: U64 | s.Valid() :: ext.pageAlloc(s, addr).0.Valid())
    && (forall s: KState | s.Valid() :: !ext.defaultException(s).Running?)
  }

  /** The fixed context of a trap: the virtual-memory calls, the uninterpreted
      ones, and the linker's `end` and `start_data`. */
  datatype Kernel = Kernel(vm: Vm, ext: Externals, end: U64, startData: U64)

  /** `exception` runs `check_virtual_memory` unless the trap is a page fault
      or general protection fault taken in kernel mode. */
  predicate ChecksMemory(reg: Registers)
  {
    (reg.intno != INT_PAGEFAULT && reg.intno != INT_GPF) || HasFlag(reg.err, PFERR_USER)
  }

  /** The start of both handlers: save the registers in the current process,
      switch to the kernel's page table, and check the memory invariants;
      `None` is a panic on the way. */
  function Prelude(k: Kernel, s: KState, reg: Registers): (r: Option<KState>)
    requires s.Valid()
    ensures r.Some? ==> (r.value.Valid() && r.value.current == s.current && r.value.Current() == s.Current().(regs := reg))
    ensures r.Some? ==> r.value.(procs := s.procs) == s
    ensures r.Some? ==> forall q | 0 <= q < NPROC && q != s.current :: r.value.procs[q] == s.procs[q]
    ensures !ChecksMemory(reg) && k.vm.setPagetable(s.tables, k.vm.kernelPagetable).Some? ==> r.Some?
  {
    var s1 := SetProc(s, s.current, s.Current().(regs := reg));
    if k.vm.setPagetable(s1.tables, k.vm.kernelPagetable).None? then None
    else if ChecksMemory(reg) && !VirtualMemoryChecked(k.vm, s1, k.end, k.startData) then None
    else Some(s1)
  }

  /** What a `switch` arm leaves: the state to resume from, or an outcome
      reached inside the arm (`schedule`, a panic, `default_exception`). */
  datatype Step = Continue(s: KState) | Leave(o: Outcome)

  /** A runnable, well-formed state or no return to user mode at all. */
  ghost predicate ResumesRunnable(o: Outcome)
  {
    o.Running? ==> o.s.Valid() && o.s.Current().state == Runnable
  }

  /** The end of both handlers: resume the current process if it is still
      runnable, otherwise schedule. From a state an arm continues with, it
      returns to user mode only in a runnable process, and in the current
      one, untouched, whenever that one is runnable. */
  function Resume(vm: Vm, st: Step): (r: Outcome)
    requires st.Continue? ==> st.s.Valid()
    ensures st.Continue? ==> ResumesRunnable(r)
    ensures st.Continue? && st.s.Current().state == Runnable && r.Running? ==> r.s == st.s
  {
    match st
    case Leave(o) => o
    case Continue(s) => if s.Current().state == Runnable then Run(vm, s, s.current) else Schedule(vm, s)
  }

  /** `kernel.c`'s `switch (reg->reg_intno)`. An arm that leaves the
      handler on its own (exit, yield, timer) returns to user mode only in a
      runnable process. */
  function ArmC(k: Kernel, s: KState): (st: Step)
    requires s.Valid() && Sound(k.ext)
    ensures st.Continue? ==> st.s.Valid()
    ensures st.Leave? ==> ResumesRunnable(st.o)
  {
    var intno, pid := s.Current().regs.intno, s.Current().pid;
    if intno == INT_SYS_PANIC then Leave(Panicked)
    else if intno == INT_SYS_GETPID then Continue(SetRax(s, SignExtend(pid)))
    else if intno == INT_SYS_FORK then
      var (s', child) := k.ext.fork(s);
      Continue(SetRax(s', SignExtend(child)))
    else if intno == INT_SYS_MAPPING then Continue(SyscallMappingAsWritten(k.vm, s))
    else if intno == INT_SYS_EXIT then Leave(Schedule(k.vm, k.ext.free(s, pid)))
    else if intno == INT_SYS_YIELD then Leave(Schedule(k.vm, s))
    else if intno == INT_SYS_BRK || intno == INT_SYS_SBRK then Continue(s)
    else if intno == INT_SYS_PAGE_ALLOC then Continue(k.ext.pageAlloc(s, s.Current().regs.rdi).0)
    else if intno == INT_SYS_MEM_TOG then Continue(SyscallMemTog(s))
    else if intno == INT_TIMER then Leave(Schedule(k.vm, s.(ticks := (s.ticks + 1) % TWO_32)))
    else if intno == INT_PAGEFAULT then
      if !HasFlag(s.Current().regs.err, PFERR_USER) then Leave(Panicked)
      else Continue(k.ext.free(SyscallPagefault(s, false), pid))
    else Leave(k.ext.defaultException(s))
  }

  /** `exception(reg)` of `kernel.c`: it either panics, spins, or returns to
      user mode in a runnable process. */
  function ExceptionC(k: Kernel, s: KState, reg: Registers): (r: Outcome)
    requires s.Valid() && Sound(k.ext)
    ensures ResumesRunnable(r)
  {
    match Prelude(k, s, reg)
    case None => Panicked
    case Some(s1) => Resume(k.vm, ArmC(k, s1))
  }

  /** The Rust `INT_SYS_PAGE_ALLOC` arm: assign the page in `rdi` to the
      current process, map it to itself `P|W|U` only if that succeeded, and
      return the assignment's result in `rax`. */
  function PageAllocRust(vm: Vm, s: KState): (st: Step)
    requires s.Valid()
    ensures st.Continue? ==> st.s.Valid()
  {
    var addr := s.Current().regs.rdi;
    var (r, pi) := AssignPhysicalPage(s.pageinfo, addr, s.current);
    var s1 := s.(pageinfo := pi);
    if r >= 0 then
      match vm.virtualMap(s1.tables, s1.Current().pagetable, addr, addr, PAGESIZE, PTE_PWU)
      case MapPanic => Leave(Panicked)
      case MapDone(_, t) => Continue(SetRax(s1.(tables := t), SignExtend(r)))
    else Continue(SetRax(s1, SignExtend(r)))
  }

  /** `kernel.rs`'s `match reg.reg_intno as u32`; vectors it does not list,
      `FORK`, `EXIT`, `BRK` and `SBRK` among them, go to
      `default_exception`. A `u32` increment of `ticks` past its range is an
      overflow panic. An arm that leaves the handler on its own (yield,
      timer) returns to user mode only in a runnable process. */
  function ArmRust(k: Kernel, s: KState): (st: Step)
    requires s.Valid() && Sound(k.ext)
    ensures st.Continue? ==> st.s.Valid()
    ensures st.Leave? ==> ResumesRunnable(st.o)
  {
    var intno, pid := s.Current().regs.intno % TWO_32, s.Current().pid;
    if intno == INT_SYS_PANIC then Leave(Panicked)
    else if intno == INT_SYS_GETPID then Continue(SetRax(s, SignExtend(pid)))
    else if intno == INT_SYS_YIELD then Leave(Schedule(k.vm, s))
    else if intno == INT_SYS_PAGE_ALLOC then PageAllocRust(k.vm, s)
    else if intno == INT_SYS_MAPPING then Continue(SyscallMappingAsWritten(k.vm, s))
    else if intno == INT_SYS_MEM_TOG then Continue(SyscallMemTog(s))
    else if intno == INT_TIMER then
      if s.ticks + 1 >= TWO_32 then Leave(Panicked) else Leave(Schedule(k.vm, s.(ticks := s.ticks + 1)))
    else if intno == INT_PAGEFAULT then
      if !HasFlag(s.Current().regs.err, PFERR_USER) then Leave(Panicked)
      else Continue(SetState(s, Broken))
    else Leave(k.ext.defaultException(s))
  }

  /** `exception(reg)` of `kernel.rs`: it either panics, spins, or returns
      to user mode in a runnable process. */
  function ExceptionRust(k: Kernel, s: KState, reg: Registers): (r: Outcome)
    requires s.Valid() && Sound(k.ext)
    ensures ResumesRunnable(r)
  {
    match Prelude(k, s, reg)
    case None => Panicked
    case Some(s1) => Resume(k.vm, ArmRust(k, s1))
  }

  // ---------------------------------------------------------------- properties

  /** Both handlers' arms agree on the vectors they share. */
  lemma ArmsAgree(k: Kernel, s: KState)
    requires s.Valid() && Sound(k.ext)
    requires SharedVector(s.Current().regs.intno, s.ticks, s.Current().regs.err)
    ensures ArmC(k, s) == ArmRust(k, s)
  {
    var intno := s.Current().regs.intno;
    ModUnique(intno, TWO_32, 0, intno);
    if intno == INT_SYS_PANIC {
    } else if intno == INT_SYS_GETPID {
    } else if intno == INT_SYS_YIELD {
    } else if intno == INT_SYS_MAPPING {
    } else if intno == INT_SYS_MEM_TOG {
    } else if intno == INT_TIMER {
      ModUnique(s.ticks + 1, TWO_32, 0, s.ticks + 1);
    } else {
    }
  }

  /** The vectors both handlers treat alike: panics, `getpid`, `yield`,
      `mapping`, `mem_tog`, the timer (short of `ticks` overflowing) and a
      page fault in kernel mode. */
  predicate SharedVector(intno: U64, ticks: U32, err: U64)
  {
    || intno == INT_SYS_PANIC || intno == INT_SYS_GETPID || intno == INT_SYS_YIELD
    || intno == INT_SYS_MAPPING || intno == INT_SYS_MEM_TOG
    || (intno == INT_TIMER && ticks + 1 < TWO_32)
    || (intno == INT_PAGEFAULT && !HasFlag(err, PFERR_USER))
  }

  /** On the shared vectors the C and Rust handlers agree. */
  lemma HandlersAgree(k: Kernel, s: KState, reg: Registers)
    requires s.Valid() && Sound(k.ext)
    requires SharedVector(reg.intno, s.ticks, reg.err)
    ensures ExceptionC(k, s, reg) == ExceptionRust(k, s, reg)
  {
    var p := Prelude(k, s, reg);
    if p.Some? {
      ArmsAgree(k, p.value);
    }
  }

  /** The C handler drops `process_page_alloc`'s result: two calls that
      differ only in what they return end the same way. */
  lemma PageAllocResultIgnored(k: Kernel, s: KState, reg: Registers, other: (KState, U64) -> (KState, int))
    requires s.Valid() && Sound(k.ext) && reg.intno == INT_SYS_PAGE_ALLOC
    requires forall t: KState, a: U64 :: other(t, a).0 == k.ext.pageAlloc(t, a).0
    ensures Sound(k.ext.(pageAlloc := other)) &&
      ExceptionC(k, s, reg) == ExceptionC(k.(ext := k.ext.(pageAlloc := other)), s, reg)
  {
  }

  /** A page fault taken in kernel mode panics in both handlers. */
  lemma KernelFaultPanics(k: Kernel, s: KState, reg: Registers)
    requires s.Valid() && Sound(k.ext)
    requires reg.intno == INT_PAGEFAULT && !HasFlag(reg.err, PFERR_USER)
    ensures ExceptionC(k, s, reg) == Panicked && ExceptionRust(k, s, reg) == Panicked
  {
  }

  /** A page fault taken in user mode never returns to the faulting process:
      C frees it, Rust marks it broken. */
  lemma UserFaultStops(k: Kernel, s: KState, reg: Registers)
    requires s.Valid() && Sound(k.ext)
    requires reg.intno == INT_PAGEFAULT && HasFlag(reg.err, PFERR_USER)
    ensures var o := ExceptionC(k, s, reg); o.Running? ==> o.s.current != s.current
    ensures var o := ExceptionRust(k, s, reg); o.Running? ==> o.s.current != s.current
  {
    var p := Prelude(k, s, reg);
    if p.Some? {
      UserFaultStopsC(k, p.value);
      UserFaultStopsRust(k, p.value);
    }
  }

  lemma UserFaultStopsC(k: Kernel, s: KState)
    requires s.Valid() && Sound(k.ext)
    requires s.Current().regs.intno == INT_PAGEFAULT && HasFlag(s.Current().regs.err, PFERR_USER)
    ensures var o := Resume(k.vm, ArmC(k, s)); o.Running? ==> o.s.current != s.current
  {
    var c := k.ext.free(SyscallPagefault(s, false), s.Current().pid);
    assert ArmC(k, s) == Continue(c);
  }

  lemma UserFaultStopsRust(k: Kernel, s: KState)
    requires s.Valid() && Sound(k.ext)
    requires s.Current().regs.intno == INT_PAGEFAULT && HasFlag(s.Current().regs.err, PFERR_USER)
    ensures var o := Resume(k.vm, ArmRust(k, s)); o.Running? ==> o.s.current != s.current
  {
    assert s.Current().regs.intno % TWO_32 == INT_PAGEFAULT;
    var c := SetState(s, Broken);
    assert ArmRust(k, s) == Continue(c);
  }

  /** `getpid` leaves the caller's pid in its `rax`, and the caller keeps
      the processor when it is runnable. */
  lemma GetpidReturnsPid(k: Kernel, s: KState, reg: Registers)
    requires s.Valid() && Sound(k.ext) && reg.intno == INT_SYS_GETPID
    ensures var o := ExceptionC(k, s, reg);
      o.Running? ==> (o.s.procs[s.current].regs.rax == s.current
        && (s.Current().state == Runnable ==> o.s.current == s.current))
  {
    var p := Prelude(k, s, reg);
    if p.Some? {
      var s1 := SetRax(p.value, SignExtend(p.value.Current().pid));
      assert ArmC(k, p.value) == Continue(s1);
    }
  }

  /** The C timer arm counts one tick modulo 2^32 and only switches
      processes. */
  lemma TimerTicksC(k: Kernel, s: KState, reg: Registers)
    requires s.Valid() && Sound(k.ext) && reg.intno == INT_TIMER
    ensures var o := ExceptionC(k, s, reg);
      o.Running? ==> (o.s.ticks == (s.ticks + 1) % TWO_32 && o.s.pageinfo == s.pageinfo && o.s.tables == s.tables)
  {
    var p := Prelude(k, s, reg);
    if p.Some? {
      TimerArmC(k, p.value);
    }
  }

  lemma TimerArmC(k: Kernel, s: KState)
    requires s.Valid() && Sound(k.ext) && s.Current().regs.intno == INT_TIMER
    ensures var o := Resume(k.vm, ArmC(k, s));
      o.Running? ==> (o.s.ticks == (s.ticks + 1) % TWO_32 && o.s.pageinfo == s.pageinfo && o.s.tables == s.tables)
  {
    TimerArmCIs(k, s);
  }

  lemma TimerArmCIs(k: Kernel, s: KState)
    requires s.Valid() && Sound(k.ext) && s.Current().regs.intno == INT_TIMER
    ensures ArmC(k, s) == Leave(Schedule(k.vm, s.(ticks := (s.ticks + 1) % TWO_32)))
  {
  }

  /** The Rust timer arm counts one tick and panics instead of wrapping. */
  lemma TimerTicksRust(k: Kernel, s: KState, reg: Registers)
    requires s.Valid() && Sound(k.ext) && reg.intno == INT_TIMER
    ensures var o := ExceptionRust(k, s, reg);
      o.Running? ==> (o.s.ticks == s.ticks + 1 && o.s.pageinfo == s.pageinfo && o.s.tables == s.tables)
    ensures s.ticks == TWO_32 - 1 ==> ExceptionRust(k, s, reg) == Panicked
  {
    var p := Prelude(k, s, reg);
    if p.Some? {
      assert p.value.Current().regs.intno % TWO_32 == INT_TIMER;
      TimerArmRust(k, p.value);
    }
  }

  lemma TimerArmRust(k: Kernel, s: KState)
    requires s.Valid() && Sound(k.ext) && s.Current().regs.intno % TWO_32 == INT_TIMER
    ensures var o := Resume(k.vm, ArmRust(k, s));
      o.Running? ==> (o.s.ticks == s.ticks + 1 && o.s.pageinfo == s.pageinfo && o.s.tables == s.tables)
    ensures s.ticks == TWO_32 - 1 ==> Resume(k.vm, ArmRust(k, s)) == Panicked
  {
    if s.ticks + 1 < TWO_32 {
      var s1 := s.(ticks := s.ticks + 1);
      var o := Schedule(k.vm, s1);
      assert ArmRust(k, s) == Leave(o);
      assert o.Running? ==> o.s == s1.(current := o.s.current);
    } else {
      assert ArmRust(k, s) == Leave(Panicked);
    }
  }

  /** The Rust `page_alloc` returns 0 in `rax` and records the page as the
      caller's exactly when `assign_physical_page` accepts the address, and
      returns -1 with `pageinfo` untouched otherwise. */
  lemma PageAllocRustSpec(vm: Vm, s: KState)
    requires s.Valid()
    ensures var st := PageAllocRust(vm, s);
      var addr := s.Current().regs.rdi;
      st.Continue? ==>
        && st.s.current == s.current
        && (AssignRefused(s.pageinfo, addr) ==>
              st.s.Current().regs.rax == TWO_64 - 1 && st.s.pageinfo == s.pageinfo && st.s.tables == s.tables)
        && (!AssignRefused(s.pageinfo, addr) ==>
              st.s.Current().regs.rax == 0 && st.s.pageinfo == AssignPhysicalPage(s.pageinfo, addr, s.current).1
              && st.s.pageinfo[PageOf(addr)] == PageInfo(s.current, 1))
    ensures AssignRefused(s.pageinfo, s.Current().regs.rdi) ==> PageAllocRust(vm, s).Continue?
  {
  }
}
