/** The program loader: `program_load` (k-loader.c) walks an ELF image's
    program headers and hands each LOAD segment to `program_load_segment`
    (kloader.rs), which allocates and maps a page for every 4096-byte step of
    the segment, copies the file bytes, zero-fills the rest and write-protects
    segments without `ELF_PFLAG_WRITE`.

    A process's memory is a byte map from its virtual addresses; `palloc` is
    an oracle: `pages[k]` is what its `k`-th call returns, and 0 (NULL) once
    the sequence is used up. */
module Loader {
  import opened X86
  import opened Wrappers
  import opened Layout
  import opened PageTables
  import opened VirtualMemory
  import opened KernelPageTable
  import opened Elf

  /** What the loader changes: the page tables and the process's bytes. */
  datatype Space = Space(tables: Tables, bytes: map<U64, Byte>)

  // ---------------------------------------------------------------- byte copies

  function Zeros(n: nat): (z: seq<Byte>)
    ensures |z| == n
  {
    seq(n, _ => 0)
  }

  /** Storing `src` byte by byte from address `dst`. */
  function CopyBytes(mem: map<U64, Byte>, dst: nat, src: seq<Byte>): map<U64, Byte>
    requires dst + |src| <= TWO_64
    decreases |src|
  {
    if |src| == 0 then mem else CopyBytes(mem[dst := src[0]], dst + 1, src[1..])
  }

  /** After a copy, the addresses `[dst, dst + |src|)` hold `src` and every
      other address keeps its byte (or stays absent). */
  lemma {:induction false} CopyBytesEffect(mem: map<U64, Byte>, dst: nat, src: seq<Byte>)
    requires dst + |src| <= TWO_64
    ensures forall a: U64 :: a in CopyBytes(mem, dst, src) <==> a in mem || dst <= a < dst + |src|
    ensures forall a: U64 | dst <= a < dst + |src| :: CopyBytes(mem, dst, src)[a] == src[a - dst]
    ensures forall a: U64 | a in mem && !(dst <= a < dst + |src|) :: CopyBytes(mem, dst, src)[a] == mem[a]
    decreases |src|
  {
    if |src| > 0 {
      CopyBytesEffect(mem[dst := src[0]], dst + 1, src[1..]);
      assert CopyBytes(mem, dst, src) == CopyBytes(mem[dst := src[0]], dst + 1, src[1..]);
      forall a: U64 | dst + 1 <= a < dst + |src|
        ensures CopyBytes(mem, dst, src)[a] == src[a - dst]
      {
        assert src[1..][a - (dst + 1)] == src[a - dst];
      }
    }
  }

  // ---------------------------------------------------------------- the allocation loop

  datatype AllocResult = AllocPanic | AllocFailed(tables: Tables, calls: nat) | Allocated(tables: Tables, calls: nat)

  /** What `palloc` returns on call number `calls`. */
  function Palloc(pages: seq<U64>, calls: nat): U64
  {
    if calls < |pages| then pages[calls] else 0
  }

  /** Mapping one page `P|W|U` in the process's table `pt`. */
  function MapUserPage(vm: Vm, pt: U64): (Tables, U64, U64) -> MapResult
  {
    (t: Tables, addr: U64, pa: U64) => vm.virtualMap(t, pt, addr, pa, PAGESIZE, PTE_PWU)
  }

  /** The first loop of `program_load_segment`, with its page-mapping call
      as a parameter: for each page from `addr` while below `endMem`, take a
      page from `palloc` and map it. A NULL page or a map that returns -1
      fails; `addr += PAGESIZE` past the top of the address space is an
      overflow panic. It completes after one `palloc` per step and fails
      after at most that many. */
  function AllocateWith(mapPage: (Tables, U64, U64) -> MapResult, t: Tables, addr: U64, endMem: U64,
                        pages: seq<U64>, calls: nat): (r: AllocResult)
    ensures r.Allocated? ==> r.calls == calls + Steps(addr, endMem)
    ensures r.AllocFailed? ==> calls < r.calls <= calls + Steps(addr, endMem)
    decreases TWO_64 - addr
  {
    if addr >= endMem then Allocated(t, calls)
    else
      var pa := Palloc(pages, calls);
      if pa == 0 then AllocFailed(t, calls + 1)
      else match mapPage(t, addr, pa)
        case MapPanic => AllocPanic
        case MapDone(code, t') =>
          if code < 0 then AllocFailed(t', calls + 1)
          else if addr + PAGESIZE >= TWO_64 then AllocPanic
          else AllocateWith(mapPage, t', addr + PAGESIZE, endMem, pages, calls + 1)
  }

  /** The allocation loop of a process with page table `pt`. */
  function AllocatePages(vm: Vm, t: Tables, pt: U64, addr: U64, endMem: U64, pages: seq<U64>, calls: nat): AllocResult
  {
    AllocateWith(MapUserPage(vm, pt), t, addr, endMem, pages, calls)
  }

  /** The number of 4096-byte steps from `addr` that start below `end`. */
  function Steps(addr: int, end: int): nat
  {
    if addr >= end then 0 else (end - addr + PAGESIZE - 1) / PAGESIZE
  }

  lemma StepsNext(addr: int, end: int)
    requires addr < end
    ensures Steps(addr, end) == 1 + Steps(addr + PAGESIZE, end)
  {
  }

  /** Whatever a page map does, the allocation loop succeeds only after one
      `palloc` per step, none of which returned NULL, and fails only after at
      most that many, the last being the one that failed. */
  lemma {:induction false} AllocateWithOutcome(mapPage: (Tables, U64, U64) -> MapResult, t: Tables, addr: U64,
                                               endMem: U64, pages: seq<U64>, calls: nat)
    ensures var r := AllocateWith(mapPage, t, addr, endMem, pages, calls);
      r.Allocated? ==> (r.calls == calls + Steps(addr, endMem)
        && forall j | calls <= j < r.calls :: Palloc(pages, j) != 0)
    ensures var r := AllocateWith(mapPage, t, addr, endMem, pages, calls);
      r.AllocFailed? ==> (calls < r.calls <= calls + Steps(addr, endMem)
        && forall j | calls <= j < r.calls - 1 :: Palloc(pages, j) != 0)
    decreases TWO_64 - addr
  {
    var pa := Palloc(pages, calls);
    if addr < endMem && pa != 0 {
      match mapPage(t, addr, pa)
      case MapPanic =>
      case MapDone(code, t') =>
        if code >= 0 && addr + PAGESIZE < TWO_64 {
          AllocateWithOutcome(mapPage, t', addr + PAGESIZE, endMem, pages, calls + 1);
          StepsNext(addr, endMem);
        }
    }
  }

  // ---------------------------------------------------------------- write protection

  /** Mapping one page again `P|U` only, to the physical address its lookup
      reports; the return value is ignored, its panics are not. */
  function RemapUserPage(vm: Vm, pt: U64): (Tables, U64) -> MapResult
  {
    (t: Tables, addr: U64) => vm.virtualMap(t, pt, addr, vm.lookup(t, pt, addr).pa, PAGESIZE, PTE_P + PTE_U)
  }

  /** The last loop of `program_load_segment` for a read-only segment, with
      its per-page call as a parameter. */
  function RemapWith(remapPage: (Tables, U64) -> MapResult, t: Tables, addr: U64, endMem: U64): (r: Option<Tables>)
    decreases TWO_64 - addr
  {
    if addr >= endMem then Some(t)
    else match remapPage(t, addr)
      case MapPanic => None
      case MapDone(_, t') =>
        if addr + PAGESIZE >= TWO_64 then None
        else RemapWith(remapPage, t', addr + PAGESIZE, endMem)
  }

  /** Every page from `addr` below `endMem` is mapped again `P|U`. */
  function RemapReadOnly(vm: Vm, t: Tables, pt: U64, addr: U64, endMem: U64): Option<Tables>
  {
    RemapWith(RemapUserPage(vm, pt), t, addr, endMem)
  }

  // ---------------------------------------------------------------- one segment

  datatype SegmentResult = SegmentPanic | SegmentDone(code: int, space: Space, calls: nat)

  /** The bytes of a loaded segment: the file bytes from `vaDown` to
      `endFile`, then zeros to `endMem`. */
  function LoadedBytes(mem: map<U64, Byte>, vaDown: U64, endFile: U64, endMem: U64, src: seq<Byte>): map<U64, Byte>
    requires vaDown <= endFile <= endMem && |src| == endFile - vaDown
  {
    CopyBytes(CopyBytes(mem, vaDown, src), endFile, Zeros(endMem - endFile))
  }

  /** What `program_load_segment` does after a complete allocation:
      `set_pagetable` to the process's table and back to the kernel's, then
      for a segment without `ELF_PFLAG_WRITE` the remap; `None` is a panic.
      Only the remap writes the tables. */
  function FinishSegment(vm: Vm, t: Tables, pt: U64, ph: ElfProgram, vaDown: U64, endMem: U64): (r: Option<Tables>)
    ensures IsWritableSegment(ph) ==> r.None? || r == Some(t)
    ensures !IsWritableSegment(ph) && r.Some? ==> r == RemapReadOnly(vm, t, pt, vaDown, endMem)
  {
    if vm.setPagetable(t, pt).None? || vm.setPagetable(t, vm.kernelPagetable).None? then None
    else if IsWritableSegment(ph) then Some(t)
    else RemapReadOnly(vm, t, pt, vaDown, endMem)
  }

  /** A segment load put together from the outcome of its allocation loop
      and of its finish: -1 when the allocation failed, a panic when it
      panicked, when `p_memsz < p_filesz` makes `end_mem - end_file`
      underflow, or when the finish panicked, and otherwise 0 with the
      segment's bytes in place. */
  function Assemble(sp: Space, ph: ElfProgram, img: seq<Byte>, vaDown: U64, alloc: AllocResult,
                    finish: Option<Tables>): SegmentResult
    requires vaDown <= ph.va && ph.va + ph.memsz < TWO_64 && ph.va + ph.filesz < TWO_64
  {
    var endFile, endMem := ph.va + ph.filesz, ph.va + ph.memsz;
    match alloc
    case AllocPanic => SegmentPanic
    case AllocFailed(t, c) => SegmentDone(-1, Space(t, sp.bytes), c)
    case Allocated(t, c) =>
      if endMem < endFile || finish.None? then SegmentPanic
      else SegmentDone(0, Space(finish.value, LoadedBytes(sp.bytes, vaDown, endFile, endMem,
                                                          Window(img, ph.offset, endFile - vaDown))), c)
  }

  /** `program_load_segment(p, ph, src)` for the process whose page table is
      `pt`, with `src` the image from `p_offset` on. A `u64` addition that
      overflows panics. It returns 0 or -1, and -1 with no byte written. */
  function ProgramLoadSegment(vm: Vm, sp: Space, pt: U64, ph: ElfProgram, img: seq<Byte>,
                              pages: seq<U64>, calls: nat): (r: SegmentResult)
    ensures r.SegmentDone? ==> r.code == 0 || r.code == -1
    ensures r.SegmentDone? && r.code == -1 ==> r.space.bytes == sp.bytes
  {
    if ph.va + ph.filesz >= TWO_64 || ph.va + ph.memsz >= TWO_64 then SegmentPanic
    else
      var vaDown, endMem := PageDown(ph.va), ph.va + ph.memsz;
      var alloc := AllocatePages(vm, sp.tables, pt, vaDown, endMem, pages, calls);
      var finish := if alloc.Allocated? then FinishSegment(vm, alloc.tables, pt, ph, vaDown, endMem) else None;
      Assemble(sp, ph, img, vaDown, alloc, finish)
  }

  lemma AssembleOutcomes(sp: Space, ph: ElfProgram, img: seq<Byte>, vaDown: U64, alloc: AllocResult,
                         finish: Option<Tables>)
    requires vaDown <= ph.va && ph.va + ph.memsz < TWO_64 && ph.va + ph.filesz < TWO_64
    ensures var r := Assemble(sp, ph, img, vaDown, alloc, finish);
      r.SegmentDone? ==>
        var endFile, endMem := ph.va + ph.filesz, ph.va + ph.memsz;
        || (r.code == -1 && r.space.bytes == sp.bytes && alloc == AllocFailed(r.space.tables, r.calls))
        || (r.code == 0 && alloc.Allocated? && alloc.calls == r.calls && endFile <= endMem
            && r.space.bytes == LoadedBytes(sp.bytes, vaDown, endFile, endMem, Window(img, ph.offset, endFile - vaDown)))
  {
  }

  /** The two ways a segment load ends without a panic: -1 with the bytes
      untouched after a failed allocation, or 0 with the segment's bytes
      loaded after a complete one. */
  lemma SegmentOutcomes(vm: Vm, sp: Space, pt: U64, ph: ElfProgram, img: seq<Byte>,
                        pages: seq<U64>, calls: nat)
    ensures var r := ProgramLoadSegment(vm, sp, pt, ph, img, pages, calls);
      r.SegmentDone? ==>
        && ph.va + ph.memsz < TWO_64 && ph.va + ph.filesz < TWO_64
        && var vaDown, endFile, endMem := PageDown(ph.va), ph.va + ph.filesz, ph.va + ph.memsz;
        var alloc := AllocatePages(vm, sp.tables, pt, vaDown, endMem, pages, calls);
        || (r.code == -1 && r.space.bytes == sp.bytes && alloc == AllocFailed(r.space.tables, r.calls))
        || (r.code == 0 && alloc.Allocated? && alloc.calls == r.calls && endFile <= endMem
            && r.space.bytes == LoadedBytes(sp.bytes, vaDown, endFile, endMem, Window(img, ph.offset, endFile - vaDown)))
  {
    if ph.va + ph.filesz < TWO_64 && ph.va + ph.memsz < TWO_64 {
      var vaDown, endMem := PageDown(ph.va), ph.va + ph.memsz;
      var alloc := AllocatePages(vm, sp.tables, pt, vaDown, endMem, pages, calls);
      var finish := if alloc.Allocated? then FinishSegment(vm, alloc.tables, pt, ph, vaDown, endMem) else None;
      assert ProgramLoadSegment(vm, sp, pt, ph, img, pages, calls) == Assemble(sp, ph, img, vaDown, alloc, finish);
      AssembleOutcomes(sp, ph, img, vaDown, alloc, finish);
    }
  }

  /** A loaded segment holds the file bytes from `vaDown` to `endFile` and
      zeros to `endMem`; every other address keeps its byte, or stays absent. */
  lemma LoadedBytesEffect(mem: map<U64, Byte>, vaDown: U64, endFile: U64, endMem: U64, src: seq<Byte>)
    requires vaDown <= endFile <= endMem && |src| == endFile - vaDown
    ensures var m := LoadedBytes(mem, vaDown, endFile, endMem, src);
      && (forall a: U64 | vaDown <= a < endFile :: a in m && m[a] == src[a - vaDown])
      && (forall a: U64 | endFile <= a < endMem :: a in m && m[a] == 0)
      && (forall a: U64 | !(vaDown <= a < endMem) :: (a in m <==> a in mem))
      && (forall a: U64 | a in mem && !(vaDown <= a < endMem) :: m[a] == mem[a])
  {
    CopyBytesEffect(mem, vaDown, src);
    CopyBytesEffect(CopyBytes(mem, vaDown, src), endFile, Zeros(endMem - endFile));
  }

  /** A segment load that does not panic returns 0 or -1. On -1 no byte has
      been written and every `palloc` before the last returned a page; on 0
      the segment's bytes are the file bytes from `rounddown(p_va)` to
      `p_va + p_filesz`, zeros to `p_va + p_memsz`, and every other byte is
      unchanged, after exactly one `palloc` per page. */
  lemma ProgramLoadSegmentEffect(vm: Vm, sp: Space, pt: U64, ph: ElfProgram, img: seq<Byte>,
                                 pages: seq<U64>, calls: nat)
    ensures var r := ProgramLoadSegment(vm, sp, pt, ph, img, pages, calls);
      r.SegmentDone? ==> r.code == 0 || r.code == -1
    ensures var r := ProgramLoadSegment(vm, sp, pt, ph, img, pages, calls);
      r.SegmentDone? && r.code == -1 ==> (r.space.bytes == sp.bytes
        && calls < r.calls && forall j | calls <= j < r.calls - 1 :: Palloc(pages, j) != 0)
    ensures var r := ProgramLoadSegment(vm, sp, pt, ph, img, pages, calls);
      r.SegmentDone? && r.code == 0 ==>
        var vaDown, endFile, endMem := PageDown(ph.va), ph.va + ph.filesz, ph.va + ph.memsz;
        && r.calls == calls + Steps(vaDown, endMem)
        && (forall a: U64 | vaDown <= a < endFile :: a in r.space.bytes && r.space.bytes[a] == ByteAt(img, ph.offset + (a - vaDown)))
        && (forall a: U64 | endFile <= a < endMem :: a in r.space.bytes && r.space.bytes[a] == 0)
        && (forall a: U64 | !(vaDown <= a < endMem) :: (a in r.space.bytes <==> a in sp.bytes))
        && (forall a: U64 | a in sp.bytes && !(vaDown <= a < endMem) :: r.space.bytes[a] == sp.bytes[a])
  {
    var r := ProgramLoadSegment(vm, sp, pt, ph, img, pages, calls);
    SegmentOutcomes(vm, sp, pt, ph, img, pages, calls);
    if r.SegmentDone? {
      var vaDown, endFile, endMem := PageDown(ph.va), ph.va + ph.filesz, ph.va + ph.memsz;
      AllocateWithOutcome(MapUserPage(vm, pt), sp.tables, vaDown, endMem, pages, calls);
      if r.code == 0 {
        var src := Window(img, ph.offset, endFile - vaDown);
        LoadedBytesEffect(sp.bytes, vaDown, endFile, endMem, src);
        forall a: U64 | vaDown <= a < endFile
          ensures r.space.bytes[a] == ByteAt(img, ph.offset + (a - vaDown))
        {
          assert src[a - vaDown] == ByteAt(img, ph.offset + (a - vaDown));
        }
      }
    }
  }

  // ---------------------------------------------------------------- the whole program

  /** The number of entries of `ramimages`. */
  const NPROGRAMS: nat := 4

  datatype LoadResult = LoadPanic | LoadDone(code: int, rip: U64, space: Space, calls: nat)

  /** The program headers of an image, from `i` on. */
  function Programs(img: seq<Byte>, eh: ElfHeader, i: nat): seq<ElfProgram>
    decreases eh.phnum - i
  {
    if i >= eh.phnum then [] else [ProgramAt(img, eh, i)] + Programs(img, eh, i + 1)
  }

  /** A segment load as a value: from a process space, a program header and
      the `palloc` calls made so far. */
  type SegmentLoader = (Space, ElfProgram, nat) -> SegmentResult

  /** `program_load_segment` for the process with page table `pt`, reading
      image `img` and allocating from `pages`. */
  function SegmentLoaderOf(vm: Vm, pt: U64, img: seq<Byte>, pages: seq<U64>): SegmentLoader
  {
    (sp: Space, ph: ElfProgram, calls: nat) => ProgramLoadSegment(vm, sp, pt, ph, img, pages, calls)
  }

  /** The loop of `program_load` over the program headers from `i`: LOAD
      segments are loaded in header order, others skipped, and the first
      failure ends the loop with -1, so it returns 0 or -1 whatever the
      segment loads return. */
  function LoadSegments(load: SegmentLoader, img: seq<Byte>, eh: ElfHeader, i: nat, sp: Space, calls: nat): (r: SegmentResult)
    ensures r.SegmentDone? ==> r.code == 0 || r.code == -1
    decreases eh.phnum - i
  {
    if i >= eh.phnum then SegmentDone(0, sp, calls)
    else
      var ph := ProgramAt(img, eh, i);
      if ph.ptype != ELF_PTYPE_LOAD then LoadSegments(load, img, eh, i + 1, sp, calls)
      else match load(sp, ph, calls)
        case SegmentPanic => SegmentPanic
        case SegmentDone(code, sp', c) =>
          if code < 0 then SegmentDone(-1, sp', c)
          else LoadSegments(load, img, eh, i + 1, sp', c)
  }

  /** `program_load(p, programnumber)` with `ramimages` as `images`: it panics
      unless `0 <= programnumber < 4` and the image starts with `ELF_MAGIC`;
      on success `rip` becomes `e_entry`. So it panics for every program
      number outside `0 .. 4` and for an image that does not start with
      0x7F 'E' 'L' 'F'; otherwise it returns 0 with `rip = e_entry`, or -1
      with `rip` unchanged. */
  function ProgramLoad(vm: Vm, images: seq<seq<Byte>>, programNumber: I32, sp: Space, pt: U64,
                       rip: U64, pages: seq<U64>, calls: nat): (r: LoadResult)
    requires |images| == NPROGRAMS
    ensures !(0 <= programNumber < NPROGRAMS) ==> r == LoadPanic
    ensures 0 <= programNumber < NPROGRAMS && Window(images[programNumber], 0, 4) != MAGIC_BYTES ==> r == LoadPanic
    ensures r.LoadDone? ==> ((r.code == 0 && r.rip == ReadHeader(images[programNumber], 0).entry)
                          || (r.code == -1 && r.rip == rip))
  {
    if !(0 <= programNumber < NPROGRAMS) then LoadPanic
    else
      var img := images[programNumber];
      MagicCheck(img, 0);
      var eh := ReadHeader(img, 0);
      if eh.magic != ELF_MAGIC then LoadPanic
      else match LoadSegments(SegmentLoaderOf(vm, pt, img, pages), img, eh, 0, sp, calls)
        case SegmentPanic => LoadPanic
        case SegmentDone(code, sp', c) =>
          if code < 0 then LoadDone(-1, rip, sp', c) else LoadDone(0, eh.entry, sp', c)
  }

  // ---------------------------------------------------------------- reference: a fold over LOAD headers

  /** The LOAD headers among `phs`, in order. */
  function LoadHeaders(phs: seq<ElfProgram>): (r: seq<ElfProgram>)
    ensures |r| <= |phs|
    ensures forall p <- r :: p in phs && p.ptype == ELF_PTYPE_LOAD
  {
    if |phs| == 0 then []
    else if phs[0].ptype == ELF_PTYPE_LOAD then [phs[0]] + LoadHeaders(phs[1..])
    else LoadHeaders(phs[1..])
  }

  /** Loading a list of segments one after the other, stopping at the first
      failure. */
  function LoadEach(load: SegmentLoader, phs: seq<ElfProgram>, sp: Space, calls: nat): SegmentResult
  {
    if |phs| == 0 then SegmentDone(0, sp, calls)
    else match load(sp, phs[0], calls)
      case SegmentPanic => SegmentPanic
      case SegmentDone(code, sp', c) =>
        if code < 0 then SegmentDone(-1, sp', c)
        else LoadEach(load, phs[1..], sp', c)
  }

  /** `program_load`'s loop loads exactly the LOAD segments of the image, in
      header order, one after the other. */
  lemma {:induction false} LoadSegmentsInOrder(load: SegmentLoader, img: seq<Byte>, eh: ElfHeader, i: nat,
                                               sp: Space, calls: nat)
    ensures LoadSegments(load, img, eh, i, sp, calls) == LoadEach(load, LoadHeaders(Programs(img, eh, i)), sp, calls)
    decreases eh.phnum - i
  {
    if i < eh.phnum {
      var ph := ProgramAt(img, eh, i);
      assert Programs(img, eh, i)[1..] == Programs(img, eh, i + 1);
      if ph.ptype != ELF_PTYPE_LOAD {
        LoadSegmentsInOrder(load, img, eh, i + 1, sp, calls);
      } else {
        match load(sp, ph, calls)
        case SegmentPanic =>
        case SegmentDone(code, sp', c) =>
          LoadSegmentsInOrder(load, img, eh, i + 1, sp', c);
      }
    }
  }

  /** An image without LOAD segments loads without touching the process. */
  lemma ProgramLoadNoSegments(vm: Vm, images: seq<seq<Byte>>, programNumber: I32, sp: Space, pt: U64,
                              rip: U64, pages: seq<U64>, calls: nat)
    requires |images| == NPROGRAMS && 0 <= programNumber < NPROGRAMS
    requires ReadHeader(images[programNumber], 0).magic == ELF_MAGIC
    requires LoadHeaders(Programs(images[programNumber], ReadHeader(images[programNumber], 0), 0)) == []
    ensures ProgramLoad(vm, images, programNumber, sp, pt, rip, pages, calls)
         == LoadDone(0, ReadHeader(images[programNumber], 0).entry, sp, calls)
  {
    var img := images[programNumber];
    LoadSegmentsInOrder(SegmentLoaderOf(vm, pt, img, pages), img, ReadHeader(img, 0), 0, sp, calls);
  }
}
