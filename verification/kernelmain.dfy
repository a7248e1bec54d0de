/** The Rust kernel's entry point `kernel(command)` and `process_setup`. */
module KernelMain {
  import opened Wrappers
  import opened X86
  import opened Layout
  import opened VirtualMemory
  import opened KernelPageTable
  import opened PhysicalPages
  import opened Elf
  import opened Loader
  import opened KernelState

  /** The address-space share of each initial process. */
  const PROC_SIZE: nat := 0x40000

  /** What setup needs besides the kernel state: the virtual-memory calls,
      the four RAM images, the pages `palloc` hands out in turn, and
      `process_init`'s effect on the registers, which the model does not
      define. */
  datatype Machine = Machine(vm: Vm, images: seq<seq<Byte>>, pages: seq<U64>, processInit: Registers -> Registers)

  /** The initial stack pointer of process `pid`. */
  function StackTop(pid: nat): (rsp: nat)
    ensures rsp % PAGESIZE == 0 && rsp >= PROC_START_ADDR
  {
    PROC_START_ADDR + PROC_SIZE * pid
  }

  /** The page just below `StackTop(pid)`, the process's first stack page.
      Only processes 0 to 4 get one inside physical memory; process 1's is
      0x13F000, as the layout drawing at the top of `kernel.rs` shows. */
  function StackPage(pid: nat): (page: U64)
    requires pid < NPROC
    ensures page % PAGESIZE == 0 && page + PAGESIZE == StackTop(pid)
    ensures page < MEMSIZE_PHYSICAL <==> pid <= 4
    ensures pid == 1 ==> page == 0x13F000
  {
    StackTop(pid) - PAGESIZE
  }

  /** Distinct processes get distinct stack pages. */
  lemma StackPagesDistinct(p: nat, q: nat)
    requires p < NPROC && q < NPROC && p != q
    ensures StackPage(p) != StackPage(q) && PageOf(StackPage(p)) != PageOf(StackPage(q))
  {
    if p < q {
      assert StackPage(q) - StackPage(p) == PROC_SIZE * (q - p) >= PROC_SIZE;
    } else {
      assert StackPage(p) - StackPage(q) == PROC_SIZE * (p - q) >= PROC_SIZE;
    }
  }

  // ---------------------------------------------------------------- process_setup

  /** The first three lines of `process_setup`: initialise the registers,
      share `kernel_pagetable`, and count the share in that page's `i8`
      refcount; an index outside `pageinfo` or a refcount overflow panics. */
  function ShareKernelTable(m: Machine, s: KState, pid: nat): (r: Option<KState>)
    requires s.Valid() && pid < NPROC
    ensures r.Some? ==> (r.value.Valid() && r.value.current == s.current && r.value.tables == s.tables)
    ensures r.Some? ==> 0 <= PageNumber(m.vm.kernelPagetable) < NPAGES
    ensures r.Some? ==> var p := r.value.procs[pid];
      p.pagetable == m.vm.kernelPagetable && p.state == s.procs[pid].state && p.memory == s.procs[pid].memory
    ensures r.Some? ==> forall q | 0 <= q < NPROC && q != pid :: r.value.procs[q] == s.procs[q]
    ensures r.Some? ==> var pn := PageNumber(m.vm.kernelPagetable);
      s.pageinfo[pn].refcount < 127
      && r.value.pageinfo[pn] == s.pageinfo[pn].(refcount := s.pageinfo[pn].refcount + 1)
      && forall i | 0 <= i < NPAGES && i != pn :: r.value.pageinfo[i] == s.pageinfo[i]
    ensures r.None? <==> (!(0 <= PageNumber(m.vm.kernelPagetable) < NPAGES)
                          || s.pageinfo[PageNumber(m.vm.kernelPagetable)].refcount == 127)
  {
    var p := s.procs[pid];
    var pn := PageNumber(m.vm.kernelPagetable);
    if !(0 <= pn < NPAGES) || s.pageinfo[pn].refcount + 1 >= 128 then None
    else
      var s1 := SetProc(s, pid, p.(regs := m.processInit(p.regs), pagetable := m.vm.kernelPagetable));
      Some(s1.(pageinfo := s.pageinfo[pn := s.pageinfo[pn].(refcount := s.pageinfo[pn].refcount + 1)]))
  }

  /** `program_load` into process `pid`, whose loaded bytes, `rip` and the
      tables change; a panic in the loader or a negative result (the
      `assert!(r >= 0)`) panics. The program number reaches the loader as
      `pn as i32`, so only its low 32 bits choose the image: a number whose
      low 32 bits are 4 or more panics, and `program + 2^32` loads the same
      image as `program`. */
  function LoadProgram(m: Machine, s: KState, pid: nat, program: nat): (r: Option<KState>)
    requires s.Valid() && pid < NPROC && |m.images| == NPROGRAMS
    ensures program % TWO_32 >= NPROGRAMS ==> r.None?
    ensures r.Some? ==> program % TWO_32 < NPROGRAMS
    ensures r.Some? ==> (r.value.Valid() && r.value.current == s.current && r.value.pageinfo == s.pageinfo)
    ensures r.Some? ==> var p := r.value.procs[pid];
      p.pagetable == s.procs[pid].pagetable && p.state == s.procs[pid].state
      && p.regs == s.procs[pid].regs.(rip := ReadHeader(m.images[program % TWO_32], 0).entry)
    ensures r.Some? ==> forall q | 0 <= q < NPROC && q != pid :: r.value.procs[q] == s.procs[q]
  {
    var p := s.procs[pid];
    var lr := ProgramLoad(m.vm, m.images, ToI32(program), Space(s.tables, p.memory), p.pagetable, p.regs.rip,
                          m.pages, s.pallocCalls);
    ImageIndex(program);
    match lr
    case LoadPanic => None
    case LoadDone(code, rip, sp, calls) =>
      if code < 0 then None
      else
        var s1 := SetProc(s, pid, p.(regs := p.regs.(rip := rip), memory := sp.bytes));
        Some(s1.(tables := sp.tables, pallocCalls := calls))
  }

  /** The image `pn as i32` selects: when the cast lands in 0 to 3 it is
      the low 32 bits of `pn`, and it lands there exactly when those bits
      are below 4. */
  lemma ImageIndex(program: nat)
    ensures 0 <= ToI32(program) < NPROGRAMS <==> program % TWO_32 < NPROGRAMS
    ensures 0 <= ToI32(program) < NPROGRAMS ==> ToI32(program) == program % TWO_32
  {
    var low := program % TWO_32;
    assert ToI32(program) == if low < 0x8000_0000 then low else low - TWO_32;
  }

  /** The rest of `process_setup`: set `rsp`, assign the page below it to
      `pid` (ignoring the result), map that page to itself `P|W|U` in the
      process's table (ignoring the result), and mark the process
      runnable. */
  function GiveStack(m: Machine, s: KState, pid: nat): (r: Option<KState>)
    requires s.Valid() && pid < NPROC
    ensures r.Some? ==> (r.value.Valid() && r.value.current == s.current)
    ensures r.Some? ==> var p := r.value.procs[pid];
      p.state == Runnable && p.regs == s.procs[pid].regs.(rsp := StackTop(pid))
      && p.pagetable == s.procs[pid].pagetable
    ensures r.Some? ==> forall q | 0 <= q < NPROC && q != pid :: r.value.procs[q] == s.procs[q]
    ensures r.Some? ==> r.value.pageinfo == AssignPhysicalPage(s.pageinfo, StackPage(pid), pid).1
  {
    var p := s.procs[pid];
    var page := StackPage(pid);
    var (_, pi) := AssignPhysicalPage(s.pageinfo, page, pid);
    match m.vm.virtualMap(s.tables, p.pagetable, page, page, PAGESIZE, PTE_PWU)
    case MapPanic => None
    case MapDone(_, t) =>
      var s1 := SetProc(s, pid, p.(regs := p.regs.(rsp := StackTop(pid)), state := Runnable));
      Some(s1.(pageinfo := pi, tables := t))
  }

  /** `process_setup(pid, program)`; `None` is a panic. Afterwards process
      `pid` is runnable on the kernel's page table with `rip` at the image's
      entry and `rsp` at `StackTop(pid)`; the table's page counts one more
      user; the stack page is the process's when it was free to take; no
      other process changed. The image is the one the low 32 bits of the
      program number name (`pn as i32`); when those bits are 4 or more the
      call panics. */
  function ProcessSetup(m: Machine, s: KState, pid: nat, program: nat): (r: Option<KState>)
    requires s.Valid() && pid < NPROC && |m.images| == NPROGRAMS
    ensures program % TWO_32 >= NPROGRAMS ==> r.None?
    ensures r.Some? ==> program % TWO_32 < NPROGRAMS && SetUp(m, s, r.value, pid, program)
  {
    match ShareKernelTable(m, s, pid)
    case None => None
    case Some(s1) =>
      match LoadProgram(m, s1, pid, program)
      case None => None
      case Some(s2) =>
        SetupChain(m, s, s1, s2, pid, program);
        GiveStack(m, s2, pid)
  }

  /** `t` is `s` after a successful `process_setup(pid, program)`: process
      `pid` is runnable on the kernel's page table with `rip` at the image's
      entry and `rsp` at `StackTop(pid)`; the table's page counts one more
      user; the stack page is the process's when it was free to take; no
      other process changed. */
  predicate SetUp(m: Machine, s: KState, t: KState, pid: nat, program: nat)
    requires s.Valid() && pid < NPROC && |m.images| == NPROGRAMS && program % TWO_32 < NPROGRAMS
  {
    && t.Valid() && t.current == s.current
    && t.procs[pid].state == Runnable
    && t.procs[pid].pagetable == m.vm.kernelPagetable
    && t.procs[pid].regs.rsp == StackTop(pid)
    && t.procs[pid].regs.rip == ReadHeader(m.images[program % TWO_32], 0).entry
    && (forall q | 0 <= q < NPROC && q != pid :: t.procs[q] == s.procs[q])
    && (var kpn := PageNumber(m.vm.kernelPagetable);
        0 <= kpn < NPAGES && (s.pageinfo[kpn].refcount >= 0 ==> t.pageinfo[kpn].refcount == s.pageinfo[kpn].refcount + 1))
    && (pid <= 4 && s.pageinfo[PageOf(StackPage(pid))].refcount == 0
        && PageOf(StackPage(pid)) != PageNumber(m.vm.kernelPagetable)
        ==> t.pageinfo[PageOf(StackPage(pid))].owner == pid && t.pageinfo[PageOf(StackPage(pid))].refcount == 1)
  }

  /** Program numbers that agree in their low 32 bits set up the same
      process: `process_setup` sees only `pn as i32`. */
  lemma {:induction false} ProcessSetupWraps(m: Machine, s: KState, pid: nat, program: nat)
    requires s.Valid() && pid < NPROC && |m.images| == NPROGRAMS
    ensures ProcessSetup(m, s, pid, program + TWO_32) == ProcessSetup(m, s, pid, program)
  {
    assert ToI32(program + TWO_32) == ToI32(program) by {
      assert (program + TWO_32) % TWO_32 == program % TWO_32;
    }
  }

  /** The three steps of `process_setup` compose. */
  lemma SetupChain(m: Machine, s: KState, s1: KState, s2: KState, pid: nat, program: nat)
    requires s.Valid() && pid < NPROC && |m.images| == NPROGRAMS
    requires ShareKernelTable(m, s, pid) == Some(s1) && LoadProgram(m, s1, pid, program) == Some(s2)
    ensures program % TWO_32 < NPROGRAMS
    ensures GiveStack(m, s2, pid).Some? ==> SetUp(m, s, GiveStack(m, s2, pid).value, pid, program)
  {
    StackAssign(s, s2, PageNumber(m.vm.kernelPagetable), pid);
  }

  /** The stack page's assignment leaves the kernel table's count alone. */
  lemma StackAssign(s: KState, s2: KState, kpn: int, pid: nat)
    requires s.Valid() && s2.Valid() && 0 <= kpn < NPAGES && pid < NPROC
    requires s.pageinfo[kpn].refcount < 127
    requires s2.pageinfo[kpn] == s.pageinfo[kpn].(refcount := s.pageinfo[kpn].refcount + 1)
    requires forall i | 0 <= i < NPAGES && i != kpn :: s2.pageinfo[i] == s.pageinfo[i]
    ensures s.pageinfo[kpn].refcount >= 0 ==>
      AssignPhysicalPage(s2.pageinfo, StackPage(pid), pid).1[kpn].refcount == s.pageinfo[kpn].refcount + 1
    ensures pid <= 4 && s.pageinfo[PageOf(StackPage(pid))].refcount == 0 && PageOf(StackPage(pid)) != kpn
      ==> (AssignPhysicalPage(s2.pageinfo, StackPage(pid), pid).1[PageOf(StackPage(pid))].owner == pid
           && AssignPhysicalPage(s2.pageinfo, StackPage(pid), pid).1[PageOf(StackPage(pid))].refcount == 1)
  {
    var page := StackPage(pid);
    if s.pageinfo[kpn].refcount >= 0 && !AssignRefused(s2.pageinfo, page) {
      assert PageOf(page) != kpn;
    }
  }

  // ---------------------------------------------------------------- kernel(command)

  /** A process slot after `write_bytes` zeroes it and the loop sets its pid
      and `P_FREE`. */
  function EmptySlot(i: nat): (p: Proc)
    requires i < NPROC
    ensures p.pid == i && p.state == Free && p.state.Code() == 0
  {
    Proc(i, Registers(0, 0, 0, 0, 0, 0, 0), Free, 0, 0, map[])
  }

  /** Resetting the process table at boot. */
  function ResetProcesses(s: KState): (r: KState)
    requires s.Valid()
    ensures r.Valid() && r.pageinfo == s.pageinfo && r.tables == s.tables
    ensures forall i | 0 <= i < NPROC :: r.procs[i].state == Free && r.procs[i].regs.rsp == 0
  {
    s.(procs := seq(NPROC, i requires 0 <= i < NPROC => EmptySlot(i)))
  }

  /** The `(pid, program)` pairs `kernel` sets up for a boot command:
      "fork", "forkexit" and "test" ask for programs 4, 5 and 6 as process
      1, "test2" for program 6 as processes 1 and 2, and any other command,
      or none, for programs 0 to 3 as processes 1 to 4. */
  function SetupPlan(command: Option<string>): (plan: seq<(nat, nat)>)
    ensures forall i | 0 <= i < |plan| :: 1 <= plan[i].0 <= 4
    ensures command.None? ==> plan == [(1, 0), (2, 1), (3, 2), (4, 3)]
  {
    var default := [(1, 0), (2, 1), (3, 2), (4, 3)];
    match command
    case None => default
    case Some(c) =>
      if c == "fork" then [(1, 4)]
      else if c == "forkexit" then [(1, 5)]
      else if c == "test" then [(1, 6)]
      else if c == "test2" then [(1, 6), (2, 6)]
      else default
  }

  /** One `process_setup` call as a value: state, pid and program number to
      the new state, `None` for a panic. */
  type SetupStep = (KState, nat, nat) -> Option<KState>

  /** `process_setup` on machine `m`. */
  function SetupOn(m: Machine): SetupStep
  {
    (s: KState, pid: nat, program: nat) =>
      if s.Valid() && pid < NPROC && |m.images| == NPROGRAMS then ProcessSetup(m, s, pid, program) else None
  }

  /** What boot relies on about one setup call: it panics on a program
      number whose low 32 bits are past the images, and otherwise leaves slot `pid` runnable at its
      stack top and every other slot alone. */
  ghost predicate SetsUpSlot(s: KState, r: Option<KState>, pid: nat, program: nat)
    requires s.Valid() && pid < NPROC
  {
    && (program % TWO_32 >= NPROGRAMS ==> r.None?)
    && (r.Some? ==> (r.value.Valid() && r.value.procs[pid].state == Runnable && r.value.procs[pid].regs.rsp == StackTop(pid)
                     && forall q | 0 <= q < NPROC && q != pid :: r.value.procs[q] == s.procs[q]))
  }

  ghost predicate SetsUpSlots(step: SetupStep)
  {
    forall s: KState, pid: nat, program: nat | s.Valid() && pid < NPROC :: SetsUpSlot(s, step(s, pid, program), pid, program)
  }

  lemma SetupOnSetsUpSlots(m: Machine)
    requires |m.images| == NPROGRAMS
    ensures SetsUpSlots(SetupOn(m))
  {
    forall s: KState, pid: nat, program: nat | s.Valid() && pid < NPROC
      ensures SetsUpSlot(s, SetupOn(m)(s, pid, program), pid, program)
    {
      assert SetupOn(m)(s, pid, program) == ProcessSetup(m, s, pid, program);
    }
  }

  /** The setup calls for each pair in turn; the first panic ends boot. */
  function SetupAll(step: SetupStep, s: KState, plan: seq<(nat, nat)>): (r: Option<KState>)
    requires s.Valid() && SetsUpSlots(step)
    requires forall i | 0 <= i < |plan| :: plan[i].0 < NPROC
    ensures r.Some? ==> r.value.Valid()
    decreases |plan|
  {
    if plan == [] then Some(s)
    else
      match step(s, plan[0].0, plan[0].1)
      case None => None
      case Some(s1) => SetupAll(step, s1, plan[1..])
  }

  /** `kernel(command)` after `hardware_init` and `pageinfo_init`, which
      produced `s`: reset the process table, set up the processes the
      command asks for, and run process 1. */
  function KernelBoot(m: Machine, s: KState, command: Option<string>): Outcome
    requires s.Valid() && |m.images| == NPROGRAMS
  {
    SetupOnSetsUpSlots(m);
    BootWith(m.vm, SetupOn(m), s, command)
  }

  /** `kernel(command)` with its setup call as a parameter. */
  function BootWith(vm: Vm, step: SetupStep, s: KState, command: Option<string>): Outcome
    requires s.Valid() && SetsUpSlots(step)
  {
    match SetupAll(step, ResetProcesses(s), SetupPlan(command))
    case None => Panicked
    case Some(s1) => Run(vm, s1, 1)
  }

  /** Whether `q` is one of the pids a plan sets up. */
  predicate Planned(plan: seq<(nat, nat)>, q: nat)
  {
    exists i | 0 <= i < |plan| :: plan[i].0 == q
  }

  /** After a successful `SetupAll`, every planned process is runnable at
      its stack top and every other slot is as it was; a plan naming a
      program whose low 32 bits are past the images panics. */
  lemma {:induction false} SetupAllEffect(step: SetupStep, s: KState, plan: seq<(nat, nat)>)
    requires s.Valid() && SetsUpSlots(step)
    requires forall i | 0 <= i < |plan| :: plan[i].0 < NPROC
    ensures var r := SetupAll(step, s, plan);
      r.Some? ==> ((forall q | 0 <= q < NPROC && Planned(plan, q) ::
                      r.value.procs[q].state == Runnable && r.value.procs[q].regs.rsp == StackTop(q))
                   && (forall q | 0 <= q < NPROC && !Planned(plan, q) :: r.value.procs[q] == s.procs[q]))
    ensures (exists i | 0 <= i < |plan| :: plan[i].1 % TWO_32 >= NPROGRAMS) ==> SetupAll(step, s, plan).None?
    decreases |plan|
  {
    if plan != [] {
      var pid, program := plan[0].0, plan[0].1;
      var r1 := step(s, pid, program);
      assert SetsUpSlot(s, r1, pid, program);
      if r1.Some? {
        var rest := plan[1..];
        SetupAllEffect(step, r1.value, rest);
        forall q | 0 <= q < NPROC
          ensures Planned(plan, q) <==> (q == pid || Planned(rest, q))
        {
          if Planned(rest, q) {
            var j :| 0 <= j < |rest| && rest[j].0 == q;
            assert plan[j + 1].0 == q;
          }
          if Planned(plan, q) && q != pid {
            var i :| 0 <= i < |plan| && plan[i].0 == q;
            assert rest[i - 1].0 == q;
          }
        }
        if exists i | 0 <= i < |plan| :: plan[i].1 % TWO_32 >= NPROGRAMS {
          var i :| 0 <= i < |plan| && plan[i].1 % TWO_32 >= NPROGRAMS;
          if i > 0 {
            assert rest[i - 1] == plan[i];
          }
        }
      }
    }
  }

  /** The plan for no command, or for an unnamed one, sets up exactly the
      pids 1 to 4. */
  lemma DefaultPlan(command: Option<string>)
    requires command.None? || command.value !in ["fork", "forkexit", "test", "test2"]
    ensures forall i | 0 <= i < |SetupPlan(command)| :: SetupPlan(command)[i].0 < NPROC
    ensures forall q: nat :: Planned(SetupPlan(command), q) <==> 1 <= q <= 4
  {
    var plan := SetupPlan(command);
    assert plan == [(1, 0), (2, 1), (3, 2), (4, 3)];
    forall q: nat
      ensures Planned(plan, q) <==> 1 <= q <= 4
    {
      if 1 <= q <= 4 {
        assert plan[q - 1].0 == q;
      }
    }
  }

  /** With no command, or any command other than the four named ones, boot
      either panics or runs process 1 with processes 1 to 4 runnable at
      their stack tops and every other slot free. */
  lemma DefaultBoot(m: Machine, s: KState, command: Option<string>)
    requires s.Valid() && |m.images| == NPROGRAMS
    requires command.None? || command.value !in ["fork", "forkexit", "test", "test2"]
    ensures var o := KernelBoot(m, s, command);
      o.Running? ==> (o.s.current == 1
        && (forall pid | 1 <= pid <= 4 :: o.s.procs[pid].state == Runnable && o.s.procs[pid].regs.rsp == StackTop(pid))
        && (forall q | 0 <= q < NPROC && !(1 <= q <= 4) :: o.s.procs[q].state == Free))
  {
    SetupOnSetsUpSlots(m);
    DefaultBootWith(m.vm, SetupOn(m), s, command);
  }

  lemma DefaultBootWith(vm: Vm, step: SetupStep, s: KState, command: Option<string>)
    requires s.Valid() && SetsUpSlots(step)
    requires command.None? || command.value !in ["fork", "forkexit", "test", "test2"]
    ensures var o := BootWith(vm, step, s, command);
      o.Running? ==> (o.s.current == 1
        && (forall pid | 1 <= pid <= 4 :: o.s.procs[pid].state == Runnable && o.s.procs[pid].regs.rsp == StackTop(pid))
        && (forall q | 0 <= q < NPROC && !(1 <= q <= 4) :: o.s.procs[q].state == Free))
  {
    DefaultPlan(command);
    SetupAllEffect(step, ResetProcesses(s), SetupPlan(command));
  }

  /** The commands that ask for programs 4 to 6 always panic, since only
      four RAM images exist for `program_load`. */
  lemma NamedCommandsPanic(m: Machine, s: KState, command: string)
    requires s.Valid() && |m.images| == NPROGRAMS
    requires command in ["fork", "forkexit", "test", "test2"]
    ensures KernelBoot(m, s, Some(command)) == Panicked
  {
    var plan := SetupPlan(Some(command));
    assert plan[0].1 % TWO_32 >= NPROGRAMS;
    SetupOnSetsUpSlots(m);
    SetupAllEffect(SetupOn(m), ResetProcesses(s), plan);
    assert KernelBoot(m, s, Some(command)) == BootWith(m.vm, SetupOn(m), s, Some(command));
  }
}
