/** The boot loader of `boot.rs`: read the kernel's ELF header from disk
    sector 1 to 0x10000, check its magic, read each segment to its address,
    and jump to the entry point. The disk is a byte string; the ATA port
    handshake is not modelled, only which sector lands where. A Rust panic
    in the loader, whose panic handler loops, is a hang. */
module BootLoader {
  import opened Wrappers
  import opened X86
  import opened Elf

  const SECTORSIZE: nat := 512
  /** Where the first sector, holding the ELF header, is read. */
  const ELFHDR: nat := 0x10000
  /** The ATA LBA registers carry 28 bits of the sector number. */
  const LBA_LIMIT: nat := 0x1000_0000

  /** Physical memory as the boot loader sees it. */
  type Memory = U64 -> Byte

  /** Disk sector `n`; bytes past the disk's end read as 0. */
  function Sector(disk: seq<Byte>, n: nat): (sec: seq<Byte>)
    ensures |sec| == SECTORSIZE
  {
    Window(disk, n * SECTORSIZE, SECTORSIZE)
  }

  /** Memory after a sector's bytes land at `dst`. */
  function WriteSector(mem: Memory, dst: nat, sec: seq<Byte>): Memory
    requires |sec| == SECTORSIZE
  {
    (a: U64) => if dst <= a < dst + SECTORSIZE then sec[a - dst] else mem(a)
  }

  /** `boot_readsect(dst, src_sect)` as a value: memory, destination and
      sector number to the new memory, `None` for a hang. */
  type SectorReader = (Memory, nat, nat) -> Option<Memory>

  /** `boot_readsect` as written: the sector number's low byte goes out
      through `try_into().unwrap()`, which panics for any sector past 255. */
  function BootReadSectAsWritten(disk: seq<Byte>): SectorReader
  {
    (mem: Memory, dst: nat, sect: nat) =>
      if sect >= 256 then None else Some(WriteSector(mem, dst, Sector(disk, sect % LBA_LIMIT)))
  }

  /** `boot_readsect` sending the low byte of the sector number, as the
      other three LBA registers are sent: the disk reads sector `sect`
      modulo 2^28. */
  function BootReadSect(disk: seq<Byte>): SectorReader
  {
    (mem: Memory, dst: nat, sect: nat) => Some(WriteSector(mem, dst, Sector(disk, sect % LBA_LIMIT)))
  }

  /** The first loop of `boot_readseg`: from `ptr`, read a sector and step
      by 512 while below `endPtr`; `ptr` and the `u32` sector number panic
      on overflow. Returns the memory and the final `ptr`: whole sectors
      past `ptr`, and past `endPtr` by less than a sector. */
  function ReadLoop(rs: SectorReader, mem: Memory, ptr: nat, endPtr: nat, sect: nat): (r: Option<(Memory, nat)>)
    ensures r.Some? ==> ptr <= r.value.1 && (r.value.1 - ptr) % SECTORSIZE == 0
    ensures r.Some? && ptr >= endPtr ==> r.value.1 == ptr
    ensures r.Some? && ptr < endPtr ==> endPtr <= r.value.1 < endPtr + SECTORSIZE
    decreases endPtr - ptr
  {
    if ptr >= endPtr then Some((mem, ptr))
    else
      match rs(mem, ptr, sect)
      case None => None
      case Some(m1) =>
        if ptr + SECTORSIZE >= TWO_64 || sect + 1 >= TWO_32 then None
        else ReadLoop(rs, m1, ptr + SECTORSIZE, endPtr, sect + 1)
  }

  /** The clearing loop, which sets every byte in `[from, limit)` to 0. */
  function ZeroFill(mem: Memory, from: nat, limit: nat): Memory
  {
    (a: U64) => if from <= a < limit then 0 else mem(a)
  }

  /** `ptr & !(SECTORSIZE - 1)`. */
  function SectorDown(ptr: nat): (base: nat)
    ensures base <= ptr < base + SECTORSIZE && base % SECTORSIZE == 0
  {
    ptr - ptr % SECTORSIZE
  }

  /** `boot_readseg(ptr, src_sect, filesz, memsz)` as written: the clearing
      loop runs from where the sector loop stopped while below `memsz`, a
      size compared with an address. It zeroes only what lies a sector
      past the file bytes and below `memsz`. */
  function BootReadSegAsWritten(disk: seq<Byte>, mem: Memory, dst: U64, sect: U32, filesz: U64, memsz: U64): (r: Option<Memory>)
    ensures r.Some? ==> forall a: U64 | dst + filesz + SECTORSIZE <= a < memsz :: r.value(a) == 0
  {
    if dst + filesz >= TWO_64 then None
    else
      match ReadLoop(BootReadSectAsWritten(disk), mem, SectorDown(dst), dst + filesz, sect)
      case None => None
      case Some((m1, ptr)) => Some(ZeroFill(m1, ptr, memsz))
  }

  /** `boot_readseg` clearing `[dst + filesz, dst + memsz)`, as its doc
      comment says, and reading sectors past 255. */
  function BootReadSeg(disk: seq<Byte>, mem: Memory, dst: U64, sect: U32, filesz: U64, memsz: U64): (r: Option<Memory>)
    ensures r.Some? ==> dst + memsz < TWO_64 && forall a: U64 | dst + filesz <= a < dst + memsz :: r.value(a) == 0
  {
    if dst + filesz >= TWO_64 || dst + memsz >= TWO_64 then None
    else
      match ReadLoop(BootReadSect(disk), mem, SectorDown(dst), dst + filesz, sect)
      case None => None
      case Some((m1, _)) => Some(ZeroFill(m1, dst + filesz, dst + memsz))
  }

  // ---------------------------------------------------------------- what a segment read leaves

  /** The disk offset of the byte `k` bytes into a read starting at sector
      `sect`. */
  function DiskOffset(sect: nat, k: nat): nat
  {
    ((sect + k / SECTORSIZE) % LBA_LIMIT) * SECTORSIZE + k % SECTORSIZE
  }

  lemma DiskOffsetStep(sect: nat, k: nat)
    requires k >= SECTORSIZE
    ensures DiskOffset(sect + 1, k - SECTORSIZE) == DiskOffset(sect, k)
  {
    assert (k - SECTORSIZE) / SECTORSIZE == k / SECTORSIZE - 1;
    assert (k - SECTORSIZE) % SECTORSIZE == k % SECTORSIZE;
  }

  /** The sector loop stops at the first sector boundary at or past
      `endPtr`, having put sector `sect + i` at `ptr + 512 i`, and writes
      nothing else. */
  lemma {:induction false} ReadLoopContents(disk: seq<Byte>, mem: Memory, ptr: nat, endPtr: nat, sect: nat)
    ensures var r := ReadLoop(BootReadSect(disk), mem, ptr, endPtr, sect);
      r.Some? ==> var p := r.value.1;
        && p >= ptr && p >= endPtr && (p - ptr) % SECTORSIZE == 0 && (p > ptr ==> p - SECTORSIZE < endPtr)
        && forall a: U64 :: r.value.0(a) == (if ptr <= a < p then ByteAt(disk, DiskOffset(sect, a - ptr)) else mem(a))
    decreases endPtr - ptr
  {
    var rs := BootReadSect(disk);
    var r := ReadLoop(rs, mem, ptr, endPtr, sect);
    if ptr < endPtr && r.Some? {
      var m1 := WriteSector(mem, ptr, Sector(disk, sect % LBA_LIMIT));
      assert rs(mem, ptr, sect) == Some(m1);
      assert r == ReadLoop(rs, m1, ptr + SECTORSIZE, endPtr, sect + 1);
      ReadLoopContents(disk, m1, ptr + SECTORSIZE, endPtr, sect + 1);
      var p := r.value.1;
      forall a: U64
        ensures r.value.0(a) == (if ptr <= a < p then ByteAt(disk, DiskOffset(sect, a - ptr)) else mem(a))
      {
        if ptr + SECTORSIZE <= a < p {
          DiskOffsetStep(sect, a - ptr);
        } else if ptr <= a < ptr + SECTORSIZE {
          assert DiskOffset(sect, a - ptr) == (sect % LBA_LIMIT) * SECTORSIZE + (a - ptr);
        }
      }
    }
  }

  /** `boot_readseg` with the intended clearing loop: bytes `[dst, dst +
      filesz)` come from the disk from sector `sect` on, `[dst + filesz, dst
      + memsz)` are zero, the rest of the sectors read lie in between, and
      nothing below the first sector or above both ends changes. It hangs
      only on overflow. */
  lemma BootReadSegSpec(disk: seq<Byte>, mem: Memory, dst: U64, sect: U32, filesz: U64, memsz: U64)
    ensures var r := BootReadSeg(disk, mem, dst, sect, filesz, memsz);
      r.Some? ==> forall a: U64 ::
        && (dst <= a < dst + filesz ==> r.value(a) == ByteAt(disk, DiskOffset(sect, a - SectorDown(dst))))
        && (dst + filesz <= a < dst + memsz ==> r.value(a) == 0)
        && (a < SectorDown(dst) || (a >= dst + filesz + SECTORSIZE && a >= dst + memsz) ==> r.value(a) == mem(a))
    ensures dst + filesz + SECTORSIZE < TWO_64 && dst + memsz < TWO_64 && sect + filesz / SECTORSIZE + 2 < TWO_32
      ==> BootReadSeg(disk, mem, dst, sect, filesz, memsz).Some?
  {
    if dst + filesz < TWO_64 && dst + memsz < TWO_64 {
      ReadLoopContents(disk, mem, SectorDown(dst), dst + filesz, sect);
      if dst + filesz + SECTORSIZE < TWO_64 && sect + filesz / SECTORSIZE + 2 < TWO_32 {
        assert (dst + filesz - SectorDown(dst)) / SECTORSIZE <= filesz / SECTORSIZE + 1;
        ReadLoopCompletes(disk, mem, SectorDown(dst), dst + filesz, sect);
      }
    }
  }

  /** The sector loop finishes when neither counter can overflow. */
  lemma {:induction false} ReadLoopCompletes(disk: seq<Byte>, mem: Memory, ptr: nat, endPtr: nat, sect: nat)
    requires endPtr + SECTORSIZE < TWO_64
    requires ptr <= endPtr ==> sect + (endPtr - ptr) / SECTORSIZE + 1 < TWO_32
    ensures ReadLoop(BootReadSect(disk), mem, ptr, endPtr, sect).Some?
    decreases endPtr - ptr
  {
    if ptr < endPtr {
      var m1 := WriteSector(mem, ptr, Sector(disk, sect % LBA_LIMIT));
      assert BootReadSect(disk)(mem, ptr, sect) == Some(m1);
      if ptr + SECTORSIZE <= endPtr {
        assert (endPtr - ptr - SECTORSIZE) / SECTORSIZE == (endPtr - ptr) / SECTORSIZE - 1;
      }
      ReadLoopCompletes(disk, m1, ptr + SECTORSIZE, endPtr, sect + 1);
    }
  }

  /** Where the as-written sector loop completes, it is the corrected one:
      the two readers differ only in hanging past sector 255. */
  lemma {:induction false} ReadLoopAsWritten(disk: seq<Byte>, mem: Memory, ptr: nat, endPtr: nat, sect: nat)
    ensures var r := ReadLoop(BootReadSectAsWritten(disk), mem, ptr, endPtr, sect);
      r.Some? ==> r == ReadLoop(BootReadSect(disk), mem, ptr, endPtr, sect)
    decreases endPtr - ptr
  {
    if ptr < endPtr && sect < 256 {
      var m1 := WriteSector(mem, ptr, Sector(disk, sect % LBA_LIMIT));
      assert BootReadSectAsWritten(disk)(mem, ptr, sect) == Some(m1);
      assert BootReadSect(disk)(mem, ptr, sect) == Some(m1);
      if ptr + SECTORSIZE < TWO_64 && sect + 1 < TWO_32 {
        ReadLoopAsWritten(disk, m1, ptr + SECTORSIZE, endPtr, sect + 1);
      }
    }
  }

  /** The as-written sector loop finishes when the pointer cannot overflow
      and every sector it reads is below 256. */
  lemma {:induction false} ReadLoopCompletesAsWritten(disk: seq<Byte>, mem: Memory, ptr: nat, endPtr: nat, sect: nat)
    requires endPtr + SECTORSIZE < TWO_64
    requires ptr <= endPtr ==> sect + (endPtr - ptr) / SECTORSIZE + 1 < 256
    ensures ReadLoop(BootReadSectAsWritten(disk), mem, ptr, endPtr, sect).Some?
    decreases endPtr - ptr
  {
    if ptr < endPtr {
      var m1 := WriteSector(mem, ptr, Sector(disk, sect % LBA_LIMIT));
      assert BootReadSectAsWritten(disk)(mem, ptr, sect) == Some(m1);
      if ptr + SECTORSIZE <= endPtr {
        assert (endPtr - ptr - SECTORSIZE) / SECTORSIZE == (endPtr - ptr) / SECTORSIZE - 1;
      }
      ReadLoopCompletesAsWritten(disk, m1, ptr + SECTORSIZE, endPtr, sect + 1);
    }
  }

  /** `boot_readseg` as written: bytes `[dst, dst + filesz)` come from the
      disk from sector `sect` on; the clearing loop zeroes from where the
      sector loop stopped up to `memsz`, an address compared with a size;
      nothing below the first sector, or above both the sectors read and
      `memsz`, changes. It completes when the pointer cannot overflow and
      the last sector read is below 256. */
  lemma BootReadSegAsWrittenSpec(disk: seq<Byte>, mem: Memory, dst: U64, sect: U32, filesz: U64, memsz: U64)
    ensures var r := BootReadSegAsWritten(disk, mem, dst, sect, filesz, memsz);
      r.Some? ==> forall a: U64 ::
        && (dst <= a < dst + filesz ==> r.value(a) == ByteAt(disk, DiskOffset(sect, a - SectorDown(dst))))
        && (dst + filesz + SECTORSIZE <= a < memsz ==> r.value(a) == 0)
        && (a < SectorDown(dst) || (a >= dst + filesz + SECTORSIZE && a >= memsz) ==> r.value(a) == mem(a))
    ensures dst + filesz + SECTORSIZE < TWO_64 && sect + filesz / SECTORSIZE + 2 < 256
      ==> BootReadSegAsWritten(disk, mem, dst, sect, filesz, memsz).Some?
  {
    if dst + filesz < TWO_64 {
      ReadLoopAsWritten(disk, mem, SectorDown(dst), dst + filesz, sect);
      ReadLoopContents(disk, mem, SectorDown(dst), dst + filesz, sect);
      if dst + filesz + SECTORSIZE < TWO_64 && sect + filesz / SECTORSIZE + 2 < 256 {
        assert (dst + filesz - SectorDown(dst)) / SECTORSIZE <= filesz / SECTORSIZE + 1;
        ReadLoopCompletesAsWritten(disk, mem, SectorDown(dst), dst + filesz, sect);
      }
    }
  }

  // ---------------------------------------------------------------- which reader

  /** Which `boot_readseg` a boot runs: the one `boot.rs` writes, or the
      corrected one. */
  datatype Reading = AsWritten | Corrected

  /** `boot_readseg(dst, sect, filesz, memsz)` in the chosen version. */
  function ReadSegment(how: Reading, disk: seq<Byte>, mem: Memory, dst: U64, sect: U32, filesz: U64, memsz: U64): Option<Memory>
  {
    match how
    case AsWritten => BootReadSegAsWritten(disk, mem, dst, sect, filesz, memsz)
    case Corrected => BootReadSeg(disk, mem, dst, sect, filesz, memsz)
  }

  /** A segment whose file offset and address agree modulo 512, read from
      sector `offset / 512 + 1`, lands byte for byte as the file stored from
      disk offset 512 holds it, in either version of the read. */
  lemma SegmentFromFile(how: Reading, disk: seq<Byte>, mem: Memory, va: U64, offset: U64, filesz: U64, memsz: U64)
    requires offset % SECTORSIZE == va % SECTORSIZE
    requires offset / SECTORSIZE + 1 + (filesz + SECTORSIZE) / SECTORSIZE < LBA_LIMIT
    requires offset / SECTORSIZE + 1 < TWO_32
    ensures var r := ReadSegment(how, disk, mem, va, offset / SECTORSIZE + 1, filesz, memsz);
      r.Some? ==> forall a: U64 | va <= a < va + filesz :: r.value(a) == ByteAt(disk, SECTORSIZE + offset + (a - va))
  {
    var sect := offset / SECTORSIZE + 1;
    BootReadSegSpec(disk, mem, va, sect, filesz, memsz);
    BootReadSegAsWrittenSpec(disk, mem, va, sect, filesz, memsz);
    var r := ReadSegment(how, disk, mem, va, sect, filesz, memsz);
    if r.Some? {
      forall a: U64 | va <= a < va + filesz
        ensures r.value(a) == ByteAt(disk, SECTORSIZE + offset + (a - va))
      {
        SegmentOffset(va, offset, filesz, a - va);
      }
    }
  }

  lemma SegmentOffset(va: nat, offset: nat, filesz: nat, j: nat)
    requires offset % SECTORSIZE == va % SECTORSIZE && j < filesz
    requires offset / SECTORSIZE + 1 + (filesz + SECTORSIZE) / SECTORSIZE < LBA_LIMIT
    ensures DiskOffset(offset / SECTORSIZE + 1, va + j - SectorDown(va)) == SECTORSIZE + offset + j
  {
    var sect := offset / SECTORSIZE + 1;
    var k := va + j - SectorDown(va);
    assert k == va % SECTORSIZE + j;
    assert k / SECTORSIZE <= (filesz + SECTORSIZE) / SECTORSIZE;
    assert (sect + k / SECTORSIZE) % LBA_LIMIT == sect + k / SECTORSIZE;
    assert (sect + k / SECTORSIZE) * SECTORSIZE + k % SECTORSIZE == SECTORSIZE + offset + j by {
      assert k / SECTORSIZE * SECTORSIZE + k % SECTORSIZE == k;
      assert offset == offset / SECTORSIZE * SECTORSIZE + va % SECTORSIZE;
    }
  }

  // ---------------------------------------------------------------- the two defects

  /** As written, a segment at 0x40000 with no file bytes and 0x100 bytes
      of memory size clears nothing, since the address is past 0x100; the
      intended loop clears its first byte. */
  lemma ZeroFillCounterexample()
    ensures var mem: Memory := _ => 0xFF;
      && BootReadSegAsWritten([], mem, 0x40000, 1, 0, 0x100).Some?
      && BootReadSegAsWritten([], mem, 0x40000, 1, 0, 0x100).value(0x40000) == 0xFF
      && BootReadSeg([], mem, 0x40000, 1, 0, 0x100).Some?
      && BootReadSeg([], mem, 0x40000, 1, 0, 0x100).value(0x40000) == 0
  {
    var mem: Memory := _ => 0xFF;
    assert ReadLoop(BootReadSectAsWritten([]), mem, 0x40000, 0x40000, 1) == Some((mem, 0x40000));
    BootReadSegSpec([], mem, 0x40000, 1, 0, 0x100);
  }

  /** As written the loader hangs on the first sector past 255, so a kernel
      longer than 255 sectors never boots; the low-byte version reads it. */
  lemma SectorByteCounterexample(disk: seq<Byte>, mem: Memory)
    ensures BootReadSegAsWritten(disk, mem, 0x40000, 256, 1, 1).None?
    ensures BootReadSeg(disk, mem, 0x40000, 256, 1, 1).Some?
  {
    BootReadSegSpec(disk, mem, 0x40000, 256, 1, 1);
  }

  // ---------------------------------------------------------------- boot

  /** `w` bytes of memory from `at`, addresses wrapping at 2^64. */
  function MemWindow(mem: Memory, at: nat, w: nat): (r: seq<Byte>)
    ensures |r| == w
  {
    seq(w, i requires 0 <= i < w => mem((at + i) % TWO_64))
  }

  datatype BootResult = Hang | Jump(entry: U64, mem: Memory)

  /** The program-header loop of `boot`, from header `i` on; each header is
      read from memory as it stands when its turn comes. */
  function LoadKernelSegments(how: Reading, disk: seq<Byte>, mem: Memory, phAddr: nat, phnum: nat, i: nat): Option<Memory>
    decreases phnum - i
  {
    if i >= phnum then Some(mem)
    else
      var ph := ReadProgram(MemWindow(mem, phAddr + ELF_PROGRAM_SIZE * i, ELF_PROGRAM_SIZE), 0);
      match ReadSegment(how, disk, mem, ph.va, (ph.offset % TWO_32) / SECTORSIZE + 1, ph.filesz, ph.memsz)
      case None => None
      case Some(m1) => LoadKernelSegments(how, disk, m1, phAddr, phnum, i + 1)
  }

  /** `boot()` as `boot.rs` writes it: read sector 1 to `ELFHDR`, then go
      on from the header there. */
  function Boot(disk: seq<Byte>, mem: Memory): (r: BootResult)
    ensures r.Jump? ==> Window(disk, SECTORSIZE, 4) == MAGIC_BYTES
  {
    HeaderSector(AsWritten, disk, mem);
    match BootReadSegAsWritten(disk, mem, ELFHDR, 1, SECTORSIZE, SECTORSIZE)
    case None => Hang
    case Some(m1) =>
      MagicCheck(MemWindow(m1, ELFHDR, ELF_HEADER_SIZE), 0);
      MagicWindow(disk, m1);
      BootFromHeader(AsWritten, disk, m1)
  }

  /** `boot()` with the corrected `boot_readseg`. */
  function BootIntended(disk: seq<Byte>, mem: Memory): (r: BootResult)
    ensures r.Jump? ==> Window(disk, SECTORSIZE, 4) == MAGIC_BYTES
  {
    HeaderSector(Corrected, disk, mem);
    match BootReadSeg(disk, mem, ELFHDR, 1, SECTORSIZE, SECTORSIZE)
    case None => Hang
    case Some(m1) =>
      MagicCheck(MemWindow(m1, ELFHDR, ELF_HEADER_SIZE), 0);
      MagicWindow(disk, m1);
      BootFromHeader(Corrected, disk, m1)
  }

  /** The rest of `boot()`: spin unless the header starts with `ELF_MAGIC`,
      load every program header's segment in order, then jump to `e_entry`
      as it stands in memory after loading. */
  function BootFromHeader(how: Reading, disk: seq<Byte>, m1: Memory): (r: BootResult)
    ensures r.Jump? ==> ReadHeader(MemWindow(m1, ELFHDR, ELF_HEADER_SIZE), 0).magic == ELF_MAGIC
  {
    var eh := ReadHeader(MemWindow(m1, ELFHDR, ELF_HEADER_SIZE), 0);
    if eh.magic != ELF_MAGIC then Hang
    else if ELFHDR + eh.phoff + ELF_PROGRAM_SIZE * eh.phnum >= TWO_64 then Hang
    else
      match LoadKernelSegments(how, disk, m1, ELFHDR + eh.phoff, eh.phnum, 0)
      case None => Hang
      case Some(m2) => Jump(ReadHeader(MemWindow(m2, ELFHDR, ELF_HEADER_SIZE), 0).entry, m2)
  }

  /** The first read, in either version, completes and puts disk sector 1
      at `ELFHDR`. */
  lemma HeaderSector(how: Reading, disk: seq<Byte>, mem: Memory)
    ensures var r := ReadSegment(how, disk, mem, ELFHDR, 1, SECTORSIZE, SECTORSIZE);
      r.Some? && forall a: U64 | ELFHDR <= a < ELFHDR + SECTORSIZE :: r.value(a) == ByteAt(disk, SECTORSIZE + (a - ELFHDR))
  {
    BootReadSegSpec(disk, mem, ELFHDR, 1, SECTORSIZE, SECTORSIZE);
    BootReadSegAsWrittenSpec(disk, mem, ELFHDR, 1, SECTORSIZE, SECTORSIZE);
  }

  /** The header's first four bytes in memory are disk bytes 512 to 515. */
  lemma MagicWindow(disk: seq<Byte>, m1: Memory)
    requires forall a: U64 | ELFHDR <= a < ELFHDR + SECTORSIZE :: m1(a) == ByteAt(disk, SECTORSIZE + (a - ELFHDR))
    ensures Window(MemWindow(m1, ELFHDR, ELF_HEADER_SIZE), 0, 4) == Window(disk, SECTORSIZE, 4)
  {
    var w := MemWindow(m1, ELFHDR, ELF_HEADER_SIZE);
    forall i | 0 <= i < 4
      ensures Window(w, 0, 4)[i] == Window(disk, SECTORSIZE, 4)[i]
    {
      var a: U64 := ELFHDR + i;
      assert (ELFHDR + i) % TWO_64 == a;
      assert w[i] == m1(a);
      assert m1(a) == ByteAt(disk, SECTORSIZE + i);
    }
  }
}
