/** The kernel's sizing and memory-layout constants (`bindings_kernel.rs`). */
module Layout {
  import opened X86
  import opened Wrappers

  /** Process states, `Procstate` values 0 to 3. */
  datatype ProcState = Free | Runnable | Blocked | Broken
  {
    function Code(): (c: nat)
      ensures c < 4
    {
      match this
      case Free => 0
      case Runnable => 1
      case Blocked => 2
      case Broken => 3
    }
  }

  /** The state a `Procstate` number stands for; numbers past 3 name none. */
  function StateOfCode(c: nat): (s: Option<ProcState>)
  {
    if c == 0 then Some(Free)
    else if c == 1 then Some(Runnable)
    else if c == 2 then Some(Blocked)
    else if c == 3 then Some(Broken)
    else None
  }

  /** The four state numbers are distinct and decode back to their state. */
  lemma StateCodesRoundTrip(s: ProcState)
    ensures StateOfCode(s.Code()) == Some(s)
  {
  }

  lemma StateCodesDistinct(s: ProcState, u: ProcState)
    ensures s.Code() == u.Code() <==> s == u
  {
    StateCodesRoundTrip(s);
    StateCodesRoundTrip(u);
  }

  const NPROC: nat := 16

  const KERNEL_START_ADDR: nat := 0x40000
  const KERNEL_STACK_TOP: nat := 0x80000
  const PROC_START_ADDR: nat := 0x10_0000
  const MEMSIZE_PHYSICAL: nat := 0x20_0000
  const NPAGES: nat := MEMSIZE_PHYSICAL / PAGESIZE
  const MEMSIZE_VIRTUAL: nat := 0x30_0000

  const INT_HARDWARE: nat := 32
  const INT_TIMER: nat := INT_HARDWARE + 0

  const CONSOLE_COLUMNS: nat := 80
  const CONSOLE_ROWS: nat := 25

  /** The layout constants are page aligned and strictly increasing, and
      physical memory holds 512 pages. */
  lemma LayoutOrdered()
    ensures KERNEL_START_ADDR < KERNEL_STACK_TOP < PROC_START_ADDR
    ensures PROC_START_ADDR < MEMSIZE_PHYSICAL < MEMSIZE_VIRTUAL
    ensures KERNEL_START_ADDR % PAGESIZE == 0 && KERNEL_STACK_TOP % PAGESIZE == 0
    ensures PROC_START_ADDR % PAGESIZE == 0 && MEMSIZE_PHYSICAL % PAGESIZE == 0
    ensures MEMSIZE_VIRTUAL % PAGESIZE == 0
    ensures NPAGES == 512 && NPAGES * PAGESIZE == MEMSIZE_PHYSICAL
    ensures INT_TIMER == 32
  {
  }
}
