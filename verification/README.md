# WeensyOS in Dafny

A model of the core of WeensyOS, a small teaching operating system for x86-64 written in C and in Rust.
Each module follows one part of the system:

- `X86` (`x86.dfy`) and `Layout` (`layout.dfy`): paging arithmetic and page-table-entry encoding, the syscall vectors, and the memory-layout constants of the kernel.
- `PageTables` (`pagetable.dfy`): four-level page tables held in physical memory, and the walk of `virtual_memory_lookup` over them, with its permission mask exactly as written.
- `VirtualMemory` (`vm.dfy`): `lookup_l1pagetable` and `virtual_memory_map`.
  - The map writes the level-1 entry of each page in the range.
  - It never allocates a table.
  - It fails with -1 on the first missing level-1 table when `PTE_P` is requested.
  - It skips such pages silently otherwise.
- `KernelPageTable` (`vminit.dfy`): the kernel page table that `virtual_memory_init` links together, and the identity-mapping self-check it runs; also `set_pagetable`'s checks.
- `PhysicalPages` (`pageinfo.dfy`): `assign_physical_page` and `pageinfo_init`.
- `KernelState` (`kstate.dfy`): the kernel's state record. It covers the process table, `run`, `schedule`, the `check_virtual_memory` invariants, `syscall_mem_tog`, `syscall_mapping` and `syscall_pagefault`.
- `Traps` (`traps.dfy`): the trap handler `exception`, once as `kernel.c` writes it and once as `kernel.rs` writes it.
- `KernelMain` (`kernelmain.dfy`): the Rust entry point `kernel(command)` and `process_setup`.
- `Loader` (`loader.dfy`): `program_load` and `program_load_segment`.
- `SegmentMaps` (`segmentmaps.dfy`) and `SegmentLoad` (`segmentload.dfy`): what `program_load_segment` does to the page tables, one loop at a time and then as a whole.
- `Elf` (`elf.dfy`): the packed little-endian ELF header and program header.
- `BootLoader` (`bootloader.dfy`): the boot loader's segment reads.
- `BootDisk` (`bootdisk.dfy`): the boot-disk builder `mkbootdisk`, including its MBR partition scan.
- `Text` (`text.dfy`): the kernel's `ToText` renderings, `generate_msg!`, both `BufferWriter`s and the NUL-terminated messages handed to C.
- `SharedLib` (`sharedlib.dfy`): the shared crate's rounding macros and C-string routines.
- `Vga` (`vga.dfy`): the VGA text-mode writer.
- `HeapInfo` (`heapinfo.dfy`): the explicit-stack quicksort, comparator and record lookup of the heap-information test program.

Machine words are unbounded integers restricted to their width (`U64`, `I32`, ...).
Bit operations are written with division and remainder.
The page-table memory is a map from page-aligned physical addresses to 512-entry tables; an address that holds no table reads as 512 zero entries.
Code the model does not define is passed in as parameters, and so is anything that depends on hardware:
- `palloc`, `process_init`, `process_fork`, `process_free`, `process_page_alloc` and `default_exception`;
- `physical_memory_isreserved`;
- the RAM images.

A kernel assertion failure or panic is an outcome of its own, and so is `schedule` spinning with nothing runnable.

## Model

| member | source | states |
|---|---|---|
| X86.ToI32 | starter-code/kernel/rust/src/bindings/bindings_x86_64.rs:33-35 | the `as c_int` cast keeps the value modulo 2^32 and leaves values below 2^31 unchanged |
| X86.SignExtend | starter-code/kernel/rust/src/bindings/bindings_x86_64.rs:38-40 | the `as u64` cast of a signed page number agrees with it modulo 2^64 and is the identity on non-negative numbers |
| X86.PagingConstants | starter-code/kernel/rust/src/bindings/bindings_x86_64.rs:22-29 | PAGESIZE is 2^12, a table holds 2^9 entries, and both masks are PAGESIZE - 1 |
| X86.PageOffset | starter-code/kernel/rust/src/bindings/bindings_x86_64.rs:67-70 | the page offset of any address is below PAGESIZE |
| X86.PageDown | starter-code-rust/src/shared/x86_64.rs:40-44 | clearing the offset bits gives a page-aligned address that is at most the address, and adding the page offset back restores the address |
| X86.PageNumberWithin | starter-code/kernel/rust/src/bindings/bindings_x86_64.rs:33-35 | adding an offset within the page does not change the page number |
| X86.PageNumberOfPageAddress | starter-code/kernel/rust/src/bindings/bindings_x86_64.rs:33-40 | `page_number(page_address(pn)) == pn` for every page number in 0 .. 2^31 |
| X86.PageAddressOfPageNumber | starter-code/kernel/rust/src/bindings/bindings_x86_64.rs:33-40 | below 2^43, `page_address(page_number(pa))` is `pa` minus its page offset |
| X86.PageAddressOfPageNumberWraps | starter-code/kernel/rust/src/bindings/bindings_x86_64.rs:33-35 | at 2^43 the 32-bit cast in `page_number` wraps, so the round trip fails: the 2^43 bound is tight |
| X86.PageAddressOfPagerNumber | starter-code-rust/src/shared/x86_64.rs:20-26 | `pageaddress(pagernumber(p))` is `p` with its low 12 bits cleared, for every `p` |
| X86.PageNumber | starter-code/kernel/rust/src/bindings/bindings_x86_64.rs:32-35 | for an address below 2^43, `page_number(pa)` is the non-negative number of the page that contains `pa` |
| X86.PageAddress | starter-code/kernel/rust/src/bindings/bindings_x86_64.rs:37-40 | `page_address(pn)` is page aligned, and for non-negative `pn` dividing it by PAGESIZE gives `pn` back |
| X86.PageIndex | starter-code/kernel/rust/src/bindings/bindings_x86_64.rs:42-45 | a page index is below 512 at every level 0 to 3 |
| X86.L4PageIndex | starter-code/kernel/rust/src/bindings/bindings_x86_64.rs:60-62 | the level-4 index is below 512, and below 256 for an address in the lower half (below 2^47) |
| X86.L3PageIndex | starter-code/kernel/rust/src/bindings/bindings_x86_64.rs:56-58 | the level-3 index is below 512 and is the same for the next page inside the same 1 GiB region |
| X86.L2PageIndex | starter-code/kernel/rust/src/bindings/bindings_x86_64.rs:52-54 | the level-2 index is below 512 and is the same for the next page inside the same 2 MiB region |
| X86.L1PageIndex | starter-code/kernel/rust/src/bindings/bindings_x86_64.rs:48-50 | the level-1 index is below 512, and the next page inside the same 2 MiB region has the next level-1 index |
| X86.NextL1Index | starter-code/kernel/rust/src/bindings/bindings_x86_64.rs:42-50 | stepping one page forward inside a 2 MiB region adds exactly 1 to the level-1 index |
| X86.PageIndexFormula | starter-code-rust/src/shared/x86_64.rs:35-38 | the index at a level is the address shifted right by 12 + 9 * (3 - level) bits, masked to 9 bits |
| X86.AddressDecomposition | starter-code/kernel/rust/src/bindings/bindings_x86_64.rs:42-70 | the L4, L3, L2 and L1 indices and the page offset are the digits of the low 48 bits of an address |
| X86.UpperIndicesBy2M | starter-code/kernel/rust/src/vm/vm.rs:102-107 | two addresses with the same `va >> 21` have the same indices at levels 0 to 2 |
| X86.PteAddr | starter-code/kernel/rust/src/bindings/bindings_x86_64.rs:73-76 | `pte_addr(e)` is page aligned and is the largest multiple of PAGESIZE not above `e` |
| X86.PteFlags | starter-code/kernel/rust/src/bindings/bindings_x86_64.rs:79-82 | `pte_flags(e)` is below 0x1000 and adds back to `pte_addr(e)` to give the whole entry |
| X86.PteRoundTrip | starter-code-rust/src/shared/x86_64.rs:46-52 | an entry built from an aligned address and a flag word decodes back to both |
| X86.FlagTests | starter-code/kernel/rust/src/bindings/bindings_x86_64.rs:86-99 | the present, writable and user tests are the bit tests for PTE_P, PTE_W and PTE_U, and the user test is also the PFERR_USER test |
| X86.FlagBits | starter-code/kernel/rust/src/bindings/bindings_x86_64.rs:86-99 | PTE_P, W, U, A, D and PS are the distinct single bits 0, 1, 2, 5, 6 and 7 inside the 0xFFF mask, and PFERR_PRESENT/WRITE/USER are bits 0, 1 and 2 |
| X86.FlagsOfPteFlags | starter-code/kernel/rust/src/bindings/bindings_x86_64.rs:80-82 | `pte_flags(e)` carries the P, W and U bits of `e` |
| X86.PageNumberOfPteAddr | starter-code/kernel/rust/src/bindings/bindings_x86_64.rs:73-76 | clearing an entry's flag bits does not change its page number |
| X86.SyscallVectors | starter-code/kernel/rust/src/bindings/bindings_x86_64.rs:252-262 | every system-call vector is INT_SYS + k, with INT_SYS = 48 |
| X86.Cpos | starter-code/kernel/rust/src/bindings/bindings_x86_64.rs:278-283 | `cpos!(row, col)` on the 25 x 80 console is below 2000, and for a column below 80 division and remainder by 80 recover row and column |
| Layout.StateCodesRoundTrip | starter-code/kernel/rust/src/bindings/bindings_kernel.rs:8-12 | each process state's number 0 to 3 decodes back to that state |
| Layout.StateCodesDistinct | starter-code/kernel/rust/src/bindings/bindings_kernel.rs:8-12 | two states have the same number exactly when they are the same state |
| Layout.LayoutOrdered | starter-code/kernel/rust/src/bindings/bindings_kernel.rs:19-37 | the layout addresses are page aligned and strictly increasing, NPAGES is 512 pages of physical memory, and INT_TIMER is 32 |
| PageTables.SetEntry | starter-code/kernel/c/vm.c:27-34 | writing `entry[i]` of one table sets that entry and leaves every other entry of every table unchanged |
| PageTables.ClearWU | starter-code/kernel/c/vm.c:144 | `e & ~m` for part of `PTE_W|PTE_U` keeps the address, the P bit and the upper flag bits, and drops W and U exactly where asked |
| PageTables.WalkUnfolds | starter-code/kernel/c/vm.c:141-146 | the lookup loop reads entry `PAGEINDEX(va, i)` of the table named by the previous masked entry, at each level, and stops at the first masked entry without P |
| PageTables.MaskedKeeps | starter-code/kernel/c/vm.c:144-145 | masking an entry keeps its P bit and its address, so the walk follows the raw entry addresses |
| PageTables.WalkResult | starter-code/kernel/c/vm.c:143-148 | the walk ends on a present entry exactly when all four entries of the path are present, and that entry is then the masked leaf |
| PageTables.VirtualMemoryLookup | starter-code/kernel/c/vm.c:140-154 | `virtual_memory_lookup` as written finds a mapping exactly when all four entries of the path are present, and then reports P and the leaf's address plus the page offset |
| PageTables.VirtualMemoryLookupIntended | starter-code/kernel/c/vm.c:140-154 | the lookup with the conventional mask finds exactly the same pages at the same physical addresses |
| PageTables.LookupSpec | starter-code/kernel/c/vm.c:140-154 | the lookup is the unmapped sentinel exactly when some level lacks P; otherwise it reports the leaf's address plus the page offset, the leaf's page number, and the leaf's flags up to W and U |
| PageTables.LookupAsWrittenPerm | starter-code/kernel/c/vm.c:142-151 | with the mask as written, the reported W (U) bit is the leaf's W (U) bit unless level 2 has it and level 1 lacks it |
| PageTables.LookupIntendedPerm | starter-code/kernel/c/vm.c:142-151 | with the conventional mask, W (U) is reported exactly when all four levels grant it |
| PageTables.LookupAsWrittenLeafPerm | starter-code/kernel/c/vm.c:41-47 | when level 1 grants W and U, as in every table the kernel builds, the reported permission is exactly the leaf's flag word |
| PageTables.LookupMasksAgree | starter-code/kernel/c/vm.c:142-151 | on paths whose three upper levels grant W and U, the mask as written and the conventional mask give the same lookup |
| PageTables.LookupOfLeaf | starter-code/kernel/c/vm.c:147-152 | an address on a page reached through present upper entries that grant the leaf's W and U looks up to its physical address, that page's number and exactly the leaf's permission |
| PageTables.LookupIntendedOfLeaf | starter-code/kernel/c/vm.c:147-152 | the same leaf gives the same mapping under the conventional mask |
| PageTables.LookupMaskGrantsTooMuch | starter-code/kernel/c/vm.c:144 | if level 0 grants neither W nor U but levels 1 and 3 grant both, the lookup as written reports W and U and the conventional lookup reports neither |
| PageTables.LookupMaskFinding | starter-code/kernel/c/vm.c:144 | a concrete four-level table whose level-0 entry is P only still looks up with W and U |
| PageTables.LookupL1 | starter-code/kernel/rust/src/vm/vm.rs:25-55 | `lookup_l1pagetable` returns NULL when the level-0 entry is not present, and any non-NULL table it returns is the level-1 table on the path of `va` |
| PageTables.LookupL1Spec | starter-code/kernel/rust/src/vm/vm.rs:25-55 | `lookup_l1pagetable` returns NULL at the first level 0 to 2 without P, panics at the first present entry whose address is not below MEMSIZE_PHYSICAL or that lacks a requested W or U, and otherwise returns the table the level-2 entry names |
| PageTables.LookupL1Found | starter-code/kernel/rust/src/vm/vm.rs:41-48 | a non-NULL result vouches that the three upper entries are present, sane and grant the requested W and U, and it is the level-1 table of the path |
| PageTables.WriteOutsideUpper | starter-code/kernel/rust/src/vm/vm.rs:25-55 | writing an entry of a table that is not one of the three upper tables of `va` changes neither those tables nor what `lookup_l1pagetable` returns |
| PageTables.SamePagePath | starter-code/kernel/c/vm.c:143-146 | two addresses on the same page read the same entry at every level |
| PageTables.SameRegionWalk | starter-code/kernel/rust/src/vm/vm.rs:102-110 | two addresses with the same `va >> 21` get the same `lookup_l1pagetable` result and the same upper tables, which is why the map walks again only when that key changes |
| VirtualMemory.NextAddr | starter-code/kernel/rust/src/vm/vm.rs:123-124 | the wrapping `+= PAGESIZE` keeps a page-aligned address aligned and is a plain addition when it does not wrap |
| VirtualMemory.VirtualMemoryMap | starter-code/kernel/rust/src/vm/vm.rs:82-91 | the map panics unless the arguments pass every sanity assertion (aligned `va`, `sz` and table; no wrap; with P an aligned `pa` ending within physical memory; `perm` below 0x1000), and with valid arguments and `sz == 0` it returns 0 and changes nothing |
| VirtualMemory.RegionKeys | starter-code/kernel/rust/src/vm/vm.rs:102-103 | below 2^47, `(va >> 21) as i32` is non-negative and two addresses share it exactly when they lie in the same 2 MiB region |
| VirtualMemory.CacheNext | starter-code/kernel/rust/src/vm/vm.rs:102-110 | when the next page is in the same 2 MiB region, the cached level-1 table is the one `lookup_l1pagetable` would return for it |
| VirtualMemory.MissingAfterFirst | starter-code/kernel/rust/src/vm/vm.rs:118-121 | a range whose first page has a level-1 table lacks one somewhere exactly when the rest of the range does |
| VirtualMemory.MapLoop | starter-code/kernel/rust/src/vm/vm.rs:99-127 | the per-page loop returns only 0 or -1, and -1 only for a non-empty range mapped with P |
| VirtualMemory.MapLoopEffect | starter-code/kernel/rust/src/vm/vm.rs:99-127 | for page-aligned `va` and `sz` with the range below 2^47, walks that do not panic and do not overlap the written slots, and a cached level-1 table that agrees with `lookup_l1pagetable` (`LoopReady`), the per-page loop finishes; it returns -1 exactly when `perm` has P and some page has no level-1 table; it writes the leaf entry of each page it reaches, and no other entry |
| VirtualMemory.VirtualMemoryMapEffect | starter-code/kernel/rust/src/vm/vm.rs:58-127 | with valid arguments on a range below 2^47 whose page walks do not panic and do not overlap the written slots, the map has the loop's effect: no rollback, no allocation, only leaf slots of the range change |
| VirtualMemory.MappedRange | starter-code/kernel/rust/src/vm/vm.rs:112-114 | after the loop, when every page has a level-1 table, each page of `[va, va + sz)` has a present path to `pa + (page - va)` carrying `perm` |
| VirtualMemory.MapsRangeTranslates | starter-code/kernel/rust/src/vm/vm.rs:58-61 | in a mapped range every address `va + X`, not only each page start, looks up to `pa + X` with exactly `perm`, through either mask |
| VirtualMemory.VirtualMemoryMapRoundTrip | starter-code/kernel/rust/src/vm/vm.rs:58-71 | mapping with P a range whose pages all have level-1 tables returns 0, and afterwards every `va + X` of the range looks up to `pa + X` and its page number with exactly `perm` |
| VirtualMemory.VirtualMemoryMapWithoutPresent | starter-code/kernel/rust/src/vm/vm.rs:115-121 | mapping without P never fails: every page with a level-1 table gets the entry `0 | perm` and looks up as unmapped, and pages without one are skipped |
| KernelPageTable.SetPagetable | starter-code/kernel/c/vm.c:60-72 | `set_pagetable` loads its argument into CR3 only when every assertion passes, so a loaded table is page aligned |
| KernelPageTable.Activate | starter-code/kernel/c/vm.c:60-72 | `set_pagetable` with the kernel's own addresses loads nothing but the table it was given |
| KernelPageTable.IdentitySetPagetable | starter-code/kernel/c/vm.c:60-70 | tables in which both the kernel table and `pt` identity-map physical memory pass every check of `set_pagetable`, when the handler and `virtual_memory_map` live in physical memory |
| KernelPageTable.VirtualMemoryInit | starter-code/kernel/c/vm.c:22-52 | a successful `virtual_memory_init` leaves `kernel_pagetable` at the first of its five tables, loaded into CR3, and every page of physical memory looks up to itself with P and W |
| KernelPageTable.LinkEntrySane | starter-code/kernel/c/vm.c:27-34 | each link entry `x | P | W | U` is present, names `x`, and passes the sanity assertions of `lookup_l1pagetable` |
| KernelPageTable.LinkedEntries | starter-code/kernel/c/vm.c:23-34 | after the `memset` and the four link writes the links are in place, and no table outside the five has changed |
| KernelPageTable.LinkedWalk | starter-code/kernel/c/vm.c:27-32 | every address of physical memory walks through tables 0, 1 and 2 to table 3 |
| KernelPageTable.L1IndexDistinct | starter-code/kernel/c/vm.c:37-38 | distinct pages of physical memory use distinct slots of the level-1 table |
| KernelPageTable.LinkedAllHaveL1 | starter-code/kernel/c/vm.c:27-38 | every page of physical memory has table 3 as its level-1 table, so the identity map cannot fail for a missing table |
| KernelPageTable.LinkedSeparated | starter-code/kernel/c/vm.c:27-38 | table 3 is none of the upper tables, and the pages of physical memory write distinct slots of it |
| KernelPageTable.IdentityMap | starter-code/kernel/c/vm.c:36-38 | the identity map over the linked tables returns 0, maps every address of physical memory to itself with P, W and U through either mask, and writes only table 3 |
| KernelPageTable.IdentityPasses | starter-code/kernel/c/vm.c:40-51 | tables that identity-map physical memory with P, W and U pass the checking loop and `set_pagetable` |
| KernelPageTable.InitStages | starter-code/kernel/c/vm.c:22-52 | `virtual_memory_init` succeeds exactly when the map does not panic, the checking loop passes and `set_pagetable` passes |
| KernelPageTable.VirtualMemoryInitIdentity | starter-code/kernel/c/vm.c:22-52 | with `kernel_pagetables` inside physical memory, `virtual_memory_init` succeeds, its table maps every address of physical memory to itself with P, W and U, and no other table is touched |
| PhysicalPages.AssignPhysicalPage | starter-code/kernel/c/kernel.c:99-111 | returns 0 or -1; -1 exactly when the address is unaligned, outside physical memory or already referenced, and then nothing changes; on 0 that one page becomes referenced once by `owner` and every other page is unchanged |
| PhysicalPages.NoDoubleAssign | starter-code/kernel/c/kernel.c:99-111 | once an assignment of an address succeeded, a second assignment of it fails and changes nothing, whoever asks |
| PhysicalPages.AssignCommutes | starter-code/kernel/c/kernel.c:99-111 | assignments of two different pages succeed or fail alike in either order and leave the same table |
| PhysicalPages.InitialInfo | starter-code/kernel/c/kernel.c:380-396 | reserved pages are PO_RESERVED even inside the kernel image; the image and the stack page 0x7F000 are otherwise PO_KERNEL; every other page is free; a page is referenced once exactly when it is not free |
| PhysicalPages.PageinfoInit | starter-code/kernel/c/kernel.c:376-398 | the loop fills one entry per physical page, and entry `pn` is the entry described for address `pn * PAGESIZE` |
| KernelState.SetProc | starter-code/kernel/c/kernel.c:23-25 | replacing one process descriptor keeps the table valid, keeps `current`, and leaves every other slot unchanged |
| KernelState.SetRax | starter-code/kernel/c/kernel.c:230-234 | storing a value in the current process's `rax` keeps the state valid, and the current `rax` is then that value |
| KernelState.SetState | starter-code/kernel/c/kernel.c:318-325 | setting the current process's state keeps the kernel state valid, and the current state is then the one set |
| KernelState.Run | starter-code/kernel/c/kernel.c:353-363 | `run` panics on a process that is not runnable; when it returns to user mode, the only change is that `current` is that process |
| KernelState.FirstRunnable | starter-code/kernel/c/kernel.c:335-341 | a pid the scan finds is below NPROC and runnable |
| KernelState.FirstRunnableSpec | starter-code/kernel/c/kernel.c:335-344 | the scan from step `k` finds the runnable pid nearest in cyclic order, skipping only non-runnable pids, and finds none exactly when no pid that far on is runnable |
| KernelState.Schedule | starter-code/kernel/c/kernel.c:332-345 | when `schedule` returns to user mode it runs a pid below NPROC that was runnable, and the only change to the state is `current` |
| KernelState.ScheduleSpec | starter-code/kernel/c/kernel.c:332-345 | `schedule` spins exactly when no process is runnable, the current one included; otherwise no runnable pid lies strictly between the current one and the pid it runs, in cyclic order |
| KernelState.DistancesPositive | starter-code/kernel/c/kernel.c:334-339 | the cyclic scan starts one past `current`, so every pid, the current one included, is at least one step away and the current one is tried last |
| KernelState.LogicalNot | starter-code/kernel/c/kernel.c:163 | C's `!` on a byte is 0 or 1, and is 0 exactly when the byte is not 0 |
| KernelState.SyscallMemTog | starter-code/kernel/c/kernel.c:157-171 | pid 0 in `rdi` flips the global display flag; the caller's own pid flips its own flag; any other value changes nothing; registers and `current` are untouched |
| KernelState.MemTogTwice | starter-code/kernel/c/kernel.c:157-171 | two identical `mem_tog` calls restore the state when the flags hold 0 or 1 |
| KernelState.EncodeMapping | starter-code/kernel/c/kernel.c:154 | the `vamapping` that is copied is 24 bytes long |
| KernelState.MappingRoundTrip | starter-code/kernel/c/kernel.c:153-154 | the 24 bytes `syscall_mapping` copies read back as the lookup result they came from |
| KernelState.StoreBytesReads | starter-code/kernel/c/kernel.c:154 | after the `memcpy`, each of the copied bytes can be read back at its address |
| KernelState.StoreBytesFrame | starter-code/kernel/c/kernel.c:154 | the `memcpy` leaves every byte outside its destination as it was |
| KernelState.SyscallMappingAsWritten | starter-code/kernel/c/kernel.c:133-155 | `syscall_mapping` as written changes no process, no `pageinfo` entry and no page table |
| KernelState.SyscallMapping | starter-code/kernel/c/kernel.c:133-155 | the corrected `syscall_mapping` changes no process, no `pageinfo` entry and no page table |
| KernelState.SyscallMappingSpec | starter-code/kernel/c/kernel.c:139-154 | the corrected call either changes nothing or stores the bytes of the lookup of `rsi` at the physical address behind `rdi`, and it stores only when the first page grants W and U and, for a record that crosses a page, the last page grants W |
| KernelState.RecordPages | starter-code/kernel/c/kernel.c:144-151 | every virtual address of a 24-byte record lies on the virtual page of its first byte or of its last, so those two lookups cover the record's virtual addresses; it says nothing about the physical frames the copy writes |
| KernelState.SyscallMappingAsWrittenSkipsCheck | starter-code/kernel/c/kernel.c:145 | when the record's last page is not writable but `rsi` lies on that page, the corrected call stores nothing and the call as written stores the record |
| KernelState.SyscallMappingCounterexample | starter-code/kernel/c/kernel.c:145 | with `rdi = 0x100FF0` on a page granting W and U, `rsi = 0x101000`, and the page of 0x101007 not writable, the corrected call stores nothing while the call as written stores all 24 bytes contiguously from the physical address behind `rdi`: the last 8 bytes land on the next physical frame, and the check of the read-only page is skipped |
| KernelState.SyscallPagefault | starter-code/kernel/rust/src/kernel/syscalls.rs:10-15 | a null message changes nothing; otherwise only the current process changes, to broken |
| KernelState.KernelTableUsers | starter-code/kernel/c/kernel.c:444-454 | the count of live processes on the kernel's table among the first `n` is at most `n` |
| KernelState.Valid | starter-code/kernel/c/kernel.c:23-25 | the shape of the kernel state: NPROC slots with slot `i` holding pid `i`, one `pageinfo` entry per physical page, and `current` inside the table (a definition; every operation's contract preserves it) |
| KernelState.VirtualMemoryChecked | starter-code/kernel/c/kernel.c:482-516 | the conjunction of the assertions of `check_virtual_memory`: process 0 free, the kernel table mapping the kernel and owned by the kernel with one reference plus one per live user, each private table mapped and owned by its process with one reference, and every referenced owned page belonging to a live process (a definition; its preservation is stated by AssignKeepsTables and AssignKeepsOwnersLive) |
| KernelState.AssignKeepsTables | starter-code/kernel/c/kernel.c:458-476 | `assign_physical_page` never takes a page-table page, because a checked table always has a non-zero reference count, so a checked ownership tree stays checked |
| KernelState.AssignKeepsOwnersLive | starter-code/kernel/c/kernel.c:506-513 | assigning a page to a live process keeps every owned, referenced page with a live owner |
| Traps.Prelude | starter-code/kernel/c/kernel.c:186-206 | on entry the saved registers become the current process's registers and nothing else in the process table changes; a kernel-mode page fault or protection fault skips the memory check, so it can only fail by the table switch failing |
| Traps.ArmC | starter-code/kernel/c/kernel.c:212-315 | every `switch` arm of the C handler that falls through to the resume step leaves a valid kernel state, and an arm that leaves on its own (yield, exit, timer) only resumes a runnable process; the mapping arm is `syscall_mapping` as written |
| Traps.PageAllocRust | starter-code/kernel/rust/src/kernel/kernel.rs:202-218 | the Rust `page_alloc` arm leaves a valid kernel state when it continues |
| Traps.ArmRust | starter-code/kernel/rust/src/kernel/kernel.rs:177-251 | every `match` arm of the Rust handler that falls through to the resume step leaves a valid kernel state, and an arm that leaves on its own (yield, timer) only resumes a runnable process; the mapping arm is the C `syscall_mapping` as written |
| Traps.ArmsAgree | starter-code/kernel/rust/src/kernel/kernel.rs:177-251 | on every interrupt vector both handlers treat alike (getpid, yield, mapping, mem_tog, a timer tick below 2^32 - 1, a kernel-mode page fault, panic) the C and Rust arms take the same step |
| Traps.HandlersAgree | starter-code/kernel/c/kernel.c:184-326 | for those shared vectors the whole C `exception` and the whole Rust `exception` end in the same outcome |
| Traps.Resume | starter-code/kernel/c/kernel.c:317-325 | the resume step returns to user mode only in a valid state whose current process is runnable, and when the current process is runnable it resumes exactly that state |
| Traps.ExceptionC | starter-code/kernel/c/kernel.c:184-326 | after any exception the C kernel either panics, spins, or resumes a runnable process in a valid state |
| Traps.ExceptionRust | starter-code/kernel/rust/src/kernel/kernel.rs:150-258 | after any exception the Rust kernel either panics, spins, or resumes a runnable process in a valid state |
| Traps.PageAllocResultIgnored | starter-code/kernel/c/kernel.c:272-277 | the C `page_alloc` arm discards the system call's return value: two implementations that differ only in that value give the same outcome |
| Traps.KernelFaultPanics | starter-code/kernel/c/kernel.c:297-301 | a page fault without the user bit in its error code panics, in C and in Rust (kernel.rs:236-239) |
| Traps.UserFaultStops | starter-code/kernel/c/kernel.c:303-309 | a user-mode page fault never resumes the faulting process: C frees it and Rust (kernel.rs:241-245) marks it broken |
| Traps.UserFaultStopsC | starter-code/kernel/c/kernel.c:303-309 | after the C page-fault arm has freed the faulting process, the resume step picks a different process |
| Traps.UserFaultStopsRust | starter-code/kernel/rust/src/kernel/kernel.rs:241-245 | after the Rust page-fault arm has marked the process broken, the resume step picks a different process |
| Traps.GetpidReturnsPid | starter-code/kernel/c/kernel.c:230-234 | `getpid` leaves the caller's pid in its `rax`, and a runnable caller keeps the processor |
| Traps.TimerTicksC | starter-code/kernel/c/kernel.c:284-289 | the C timer interrupt adds one to `ticks` modulo 2^32 and changes neither physical pages nor page tables |
| Traps.TimerArmC | starter-code/kernel/c/kernel.c:284-289 | the same statement for the timer arm alone, after the prelude |
| Traps.TimerArmCIs | starter-code/kernel/c/kernel.c:284-289 | the C timer arm is the tick modulo 2^32 followed by `schedule`, with no other change |
| Traps.TimerTicksRust | starter-code/kernel/rust/src/kernel/kernel.rs:225-229 | the Rust timer interrupt adds one to `ticks` without wrapping, and panics on the overflow at 2^32 - 1 |
| Traps.TimerArmRust | starter-code/kernel/rust/src/kernel/kernel.rs:225-229 | the Rust timer arm alone: below 2^32 - 1 it adds one to `ticks` and changes neither pages nor tables when it returns to user mode; at 2^32 - 1 the overflow-checked addition panics |
| Traps.PageAllocRustSpec | starter-code/kernel/rust/src/kernel/kernel.rs:202-218 | the Rust `page_alloc` returns 0 and records the page as the caller's (refcount 1) exactly when `assign_physical_page` accepts the address; otherwise it returns -1 and leaves pages and tables alone |
| KernelMain.StackTop | starter-code/kernel/rust/src/kernel/kernel.rs:130 | the initial stack pointer `PROC_START_ADDR + PROC_SIZE * pid` is page-aligned and never below the first process's area |
| KernelMain.StackPage | starter-code/kernel/rust/src/kernel/kernel.rs:131 | the stack page sits one page under the stack top, is aligned, lies in physical memory exactly for pids 0 to 4, and is 0x13F000 for process 1 as the layout drawing at kernel.rs:10-21 shows |
| KernelMain.StackPagesDistinct | starter-code/kernel/rust/src/kernel/kernel.rs:130-132 | two different processes never get the same stack page, nor the same physical page number |
| KernelMain.ShareKernelTable | starter-code/kernel/rust/src/kernel/kernel.rs:123-125 | `process_setup` puts the process on `kernel_pagetable` and counts one more reference in that page's `i8` refcount, touching no other slot or page; it panics exactly when the page number is outside `pageinfo` or the refcount would overflow |
| KernelMain.LoadProgram | starter-code/kernel/rust/src/kernel/kernel.rs:127-128 | loading sets the process's `rip` to the image's ELF entry and keeps its table and state; the image is the one `pn as i32` names, the low 32 bits of the program number; a number whose low 32 bits are 4 or more, or a negative result, panics |
| KernelMain.GiveStack | starter-code/kernel/rust/src/kernel/kernel.rs:130-135 | the process becomes runnable with `rsp` at its stack top, the stack page is assigned to it as `assign_physical_page` decides, and no other process changes |
| KernelMain.ProcessSetup | starter-code/kernel/rust/src/kernel/kernel.rs:122-136 | after a successful `process_setup` the process is runnable on the kernel's table, with `rip` at the entry of the image the low 32 bits of `pn` name and `rsp` at its stack top; a number whose low 32 bits are 4 or more panics; the table's page has one more user; a free stack page becomes the process's with refcount 1; other processes are unchanged |
| KernelMain.ProcessSetupWraps | starter-code/kernel/rust/src/kernel/kernel.rs:122-128 | program numbers 2^32 apart set up the same process, since `process_setup` passes `pn as i32` to `program_load` |
| KernelMain.SetupChain | starter-code/kernel/rust/src/kernel/kernel.rs:122-136 | the three steps of `process_setup` compose into that overall effect |
| KernelMain.StackAssign | starter-code/kernel/rust/src/kernel/kernel.rs:125-132 | assigning the stack page does not disturb the kernel table's refcount increment, and a free stack page ends owned by the process with refcount 1 |
| KernelMain.EmptySlot | starter-code/kernel/rust/src/kernel/kernel.rs:77-85 | a slot after zeroing carries its own index as pid and is `P_FREE`, whose code is 0 |
| KernelMain.ResetProcesses | starter-code/kernel/rust/src/kernel/kernel.rs:77-85 | resetting at boot frees every slot and zeroes its stack pointer, leaving physical pages and tables alone |
| KernelMain.SetupPlan | starter-code/kernel/rust/src/kernel/kernel.rs:87-112 | every boot command sets up pids between 1 and 4, and no command means programs 0 to 3 as processes 1 to 4 |
| KernelMain.SetupOnSetsUpSlots | starter-code/kernel/rust/src/kernel/kernel.rs:122-136 | each `process_setup` call panics on a program number whose low 32 bits are past the images, and otherwise leaves its slot runnable at its stack top and every other slot alone |
| KernelMain.SetupAll | starter-code/kernel/rust/src/kernel/kernel.rs:98-110 | a run of setup calls that does not panic ends in a valid kernel state |
| KernelMain.SetupAllEffect | starter-code/kernel/rust/src/kernel/kernel.rs:98-110 | after a run of setup calls, every planned pid is runnable at its stack top and every other slot is as before; a plan that names a program whose low 32 bits are past the images panics |
| KernelMain.DefaultPlan | starter-code/kernel/rust/src/kernel/kernel.rs:101-111 | with no command or an unrecognised one, the plan covers exactly pids 1 to 4 |
| KernelMain.DefaultBoot | starter-code/kernel/rust/src/kernel/kernel.rs:71-115 | a default boot either panics or runs process 1, with processes 1 to 4 runnable at their stack tops and every other slot free |
| KernelMain.DefaultBootWith | starter-code/kernel/rust/src/kernel/kernel.rs:71-115 | the same result for any setup call that keeps the per-slot promise |
| KernelMain.NamedCommandsPanic | starter-code/kernel/rust/src/kernel/kernel.rs:91-100 | "fork", "forkexit", "test" and "test2" ask for programs 4 to 6; only four images exist, so boot panics |
| Loader.CopyBytesEffect | starter-code/kernel/rust/src/kloader/kloader.rs:58-59 | a byte copy to `dst` puts `src` at `[dst, dst + len)` and leaves every other address's byte, or its absence, as it was |
| Loader.AllocateWith | starter-code/kernel/rust/src/kloader/kloader.rs:26-52 | the allocation loop, for any per-page map, completes after exactly one `palloc` call per page step from the rounded-down address to `end_mem`, and fails after at least one and at most that many |
| Loader.AllocateWithOutcome | starter-code/kernel/rust/src/kloader/kloader.rs:27-52 | whatever the page map does, the allocation loop succeeds only after one non-NULL `palloc` per page step from the rounded-down address to `end_mem`, and fails only after at most that many calls, the last being the failing one |
| Loader.RemapReadOnly | starter-code/kernel/rust/src/kloader/kloader.rs:64-78 | the write-protection loop maps every page from the rounded-down address below `end_mem` again with P\|U at the frame its lookup reports (a definition; what it leaves in the tables is SegmentMaps.RemapMaps) |
| Loader.FinishSegment | starter-code/kernel/rust/src/kloader/kloader.rs:54-78 | after the allocation, a writable segment keeps its tables (or panics in `set_pagetable`), and a segment without `ELF_PFLAG_WRITE` ends with the tables of the P\|U remap loop over the same pages |
| Loader.ProgramLoadSegment | starter-code/kernel/rust/src/kloader/kloader.rs:16-82 | `program_load_segment` panics or returns 0 or -1, and -1 leaves every byte of the address space as it was |
| Loader.AssembleOutcomes | starter-code/kernel/rust/src/kloader/kloader.rs:49-81 | a segment load that does not panic either returns -1 with bytes untouched after a failed allocation, or 0 with the file bytes and zero fill in place after a complete one |
| Loader.SegmentOutcomes | starter-code/kernel/rust/src/kloader/kloader.rs:16-82 | the same two outcomes for `program_load_segment` as a whole, whose `u64` additions for `end_file` and `end_mem` did not overflow |
| Loader.LoadedBytesEffect | starter-code/kernel/rust/src/kloader/kloader.rs:58-59 | after the copy and the zero fill, `[va, end_file)` holds the source bytes, `[end_file, end_mem)` holds zeros, and every other address is unchanged |
| Loader.ProgramLoadSegmentEffect | starter-code/kernel/rust/src/kloader/kloader.rs:8-13 | `program_load_segment` returns 0 or -1; on -1 no byte is written; on 0 the segment's bytes are the image bytes from `p_offset` (zeros past the image's end), then zeros up to `p_va + p_memsz`, after exactly one `palloc` per page, and no byte outside the segment's pages changes; what it does to the page tables is SegmentLoad.ProgramLoadSegmentMaps |
| Loader.LoadHeaders | starter-code/kernel/c/k-loader.c:53-63 | the selected headers are a subsequence of the program headers, all of type `ELF_PTYPE_LOAD` |
| Loader.LoadSegmentsInOrder | starter-code/kernel/c/k-loader.c:51-63 | the loop over `e_phnum` headers loads exactly the LOAD segments, in header order, and stops at the first failure |
| Loader.LoadSegments | starter-code/kernel/c/k-loader.c:51-63 | the loop over the program headers returns only 0 or -1, or panics |
| Loader.ProgramLoad | starter-code/kernel/c/k-loader.c:42-68 | `program_load` panics for a program number outside 0 to 3 and for an image without the ELF magic; otherwise it returns 0 with `rip` set to `e_entry`, or -1 with `rip` unchanged |
| Loader.ProgramLoadNoSegments | starter-code/kernel/c/k-loader.c:42-68 | an image with no LOAD segment loads without touching the process: result 0, `rip` at `e_entry`, space and `palloc` count unchanged |
| SegmentMaps.SegmentPerm | starter-code/kernel/rust/src/kloader/kloader.rs:36 | a loaded page ends present and user-accessible, and writable exactly when the segment has `ELF_PFLAG_WRITE` (lines 64-74 drop W otherwise) |
| SegmentMaps.MapOnePage | starter-code/kernel/rust/src/kloader/kloader.rs:31-36 | one call of the allocation loop's `virtual_memory_map` on a page of a ready range returns 0 and writes that page's leaf slot only |
| SegmentMaps.LeafLooksUp | starter-code/kernel/rust/src/kloader/kloader.rs:67 | a leaf slot of the range holding `x \| perm` makes `virtual_memory_lookup` of the page report `x`, its page number and exactly `perm` |
| SegmentMaps.AllocateWithKeeps | starter-code/kernel/rust/src/kloader/kloader.rs:27-52 | an invariant that holds at the start and that every successful page step carries over holds for the tables of a completed allocation loop |
| SegmentMaps.RemapWithKeeps | starter-code/kernel/rust/src/kloader/kloader.rs:65-77 | the same induction rule for the write-protection loop |
| SegmentMaps.AllocateMaps | starter-code/kernel/rust/src/kloader/kloader.rs:27-52 | once the allocation loop completes, every page of the range has the leaf naming its own `palloc` page with P\|W\|U, and no other entry has changed |
| SegmentMaps.RemapMaps | starter-code/kernel/rust/src/kloader/kloader.rs:64-78 | once the write-protection loop completes, every page of the range has the leaf naming the same page with P\|U, and still no other entry has changed |
| SegmentMaps.FinishMaps | starter-code/kernel/rust/src/kloader/kloader.rs:55-78 | after a complete allocation, the tables `program_load_segment` keeps hold every page's leaf with the segment's permission |
| SegmentMaps.RangeLooksUp | starter-code/kernel/rust/src/kloader/kloader.rs:67 | leaves installed over the whole range make every page look up to its `palloc` page with that permission |
| SegmentLoad.SegmentTablesMapped | starter-code/kernel/rust/src/kloader/kloader.rs:26-78 | the allocation loop followed by the finish leaves the range mapped page by page to its `palloc` pages with the segment's permission, changing only leaf slots of the range |
| SegmentLoad.SegmentLoadMaps | starter-code/kernel/rust/src/kloader/kloader.rs:16-82 | a segment load that returns 0 from tables ready for its range has that effect on the tables |
| SegmentLoad.ProgramLoadSegmentMaps | starter-code/kernel/rust/src/kloader/kloader.rs:21-81 | when `program_load_segment` returns 0, each page `rounddown(p_va) + k * PAGESIZE` below `p_va + p_memsz` looks up to the k-th page `palloc` gave, with P\|W\|U for a writable segment and P\|U for one without `ELF_PFLAG_WRITE`, and no entry other than those pages' leaf slots changes |
| Elf.LeRoundTrip | starter-code-rust/src/shared/elf.rs:9 | reading back the `k` little-endian bytes of a value below `256^k` gives the value |
| Elf.LeBytesOfValue | starter-code-rust/src/shared/elf.rs:9 | writing out a byte string's little-endian value in as many bytes gives the same bytes |
| Elf.LeValueInjective | starter-code-rust/src/shared/elf.rs:9 | two byte strings of one length have the same little-endian value exactly when they are equal |
| Elf.PackedLayout | starter-code-rust/src/shared/elf.rs:12-43 | the fields in declaration order sit at the offsets the header comments give (`e_entry` at 0x18, `e_phoff` at 0x20, `e_phnum` at 0x38, `p_va` at 0x10, `p_memsz` at 0x28, ...), and the two structs are 64 and 56 bytes long, also packed as in bindings_elf.rs:1-32 |
| Elf.MagicIsElf | starter-code-rust/src/shared/elf.rs:9 | `ELF_MAGIC` is the bytes 0x7F 'E' 'L' 'F' read little endian, and the kernel crate's decimal constant 1179403647 (bindings_elf.rs:34) is the same number |
| Elf.ProgramFlagBits | starter-code-rust/src/shared/elf.rs:62-65 | the execute, write and read flags are the distinct single bits 1, 2 and 4 |
| Elf.ReadHeader | starter-code-rust/src/shared/elf.rs:12-29 | a header read from any image has a twelve-byte `e_elf` |
| Elf.MagicCheck | starter-code-rust/src/shared/elf.rs:9-14 | the header's `e_magic` equals `ELF_MAGIC` exactly when the image's first four bytes there are 0x7F 'E' 'L' 'F' |
| Elf.EncodeHeader | starter-code-rust/src/shared/elf.rs:12-29 | a header laid out as bytes takes exactly 64 bytes |
| Elf.EncodeProgram | starter-code-rust/src/shared/elf.rs:32-43 | a program header laid out as bytes takes exactly 56 bytes |
| Elf.HeaderRoundTrip | starter-code-rust/src/shared/elf.rs:12-29 | an encoded header placed anywhere in an image reads back as the same header |
| Elf.ProgramRoundTrip | starter-code-rust/src/shared/elf.rs:32-43 | an encoded program header placed anywhere in an image reads back as the same program header |
| BootLoader.SectorDown | starter-code-rust/src/kernel/boot.rs:78 | masking with `!(SECTORSIZE - 1)` gives the sector boundary at or below the address, within 512 bytes of it |
| BootLoader.ReadLoop | starter-code-rust/src/kernel/boot.rs:80-85 | the sector loop, when it finishes, stops a whole number of sectors past its start: where it started if that was already at or past `end_ptr`, and otherwise at or past `end_ptr` by less than one sector |
| BootLoader.ReadLoopContents | starter-code-rust/src/kernel/boot.rs:80-85 | the sector loop stops at the first sector boundary at or past `end_ptr`, having put sector `src_sect + i` at `ptr + 512 i` (sector numbers modulo the 28 LBA bits), and writes nothing else |
| BootLoader.ReadLoopCompletes | starter-code-rust/src/kernel/boot.rs:81-85 | the sector loop finishes whenever neither the pointer nor the `u32` sector counter can overflow |
| BootLoader.ZeroFill | starter-code-rust/src/kernel/boot.rs:87-92 | the clearing loop sets every byte from its start up to its limit to 0 and no other (a definition; which limit each version passes is stated by BootReadSegAsWritten and BootReadSeg) |
| BootLoader.BootReadSegAsWritten | starter-code-rust/src/kernel/boot.rs:76-93 | `boot_readseg` as written, when it completes, has zeroed every address from one sector past the file bytes up to `memsz`, the size it compares the address with |
| BootLoader.ReadLoopAsWritten | starter-code-rust/src/kernel/boot.rs:80-85 | where the as-written sector loop completes it leaves the same memory and pointer as the corrected one: the two readers differ only in hanging past sector 255 |
| BootLoader.ReadLoopCompletesAsWritten | starter-code-rust/src/kernel/boot.rs:80-85 | the as-written sector loop finishes when the pointer cannot overflow and every sector it reads is below 256 |
| BootLoader.BootReadSegAsWrittenSpec | starter-code-rust/src/kernel/boot.rs:76-93 | as written, `[dst, dst + filesz)` comes from the disk from sector `src_sect`, the clearing loop zeroes from where the sector loop stopped up to `memsz`, nothing below the first sector or above both the sectors read and `memsz` changes, and the read completes when the pointer cannot overflow and the last sector read is below 256 |
| BootLoader.BootReadSeg | starter-code-rust/src/kernel/boot.rs:71-75 | the corrected `boot_readseg`, when it completes, has zeroed all of `[dst + filesz, dst + memsz)` |
| BootLoader.BootReadSegSpec | starter-code-rust/src/kernel/boot.rs:71-75 | with the clearing loop the doc comment describes, `[dst, dst + filesz)` comes from the disk from sector `src_sect`, `[dst + filesz, dst + memsz)` is zero, nothing below the first sector or above both ends changes, and the read hangs only on overflow |
| BootLoader.SegmentFromFile | starter-code-rust/src/kernel/boot.rs:55-62 | a segment whose file offset and address agree modulo 512, read from sector `p_offset / 512 + 1`, lands byte for byte as the kernel file stored from disk offset 512 holds it |
| BootLoader.ZeroFillCounterexample | starter-code-rust/src/kernel/boot.rs:87-92 | as written, a segment at 0x40000 with no file bytes and a memory size of 0x100 clears nothing, because the loop compares an address with a size; the intended loop clears it |
| BootLoader.SectorByteCounterexample | starter-code-rust/src/kernel/boot.rs:103 | as written, `try_into().unwrap()` of a sector number past 255 panics and the loader hangs; sending the low byte reads the sector |
| BootLoader.BootFromHeader | starter-code-rust/src/kernel/boot.rs:47-68 | from a loaded header, with either version of `boot_readseg`, the loader jumps only when the header at 0x10000 carries `ELF_MAGIC`; `Boot` runs it with the version as written |
| BootLoader.HeaderSector | starter-code-rust/src/kernel/boot.rs:44-46 | the first read always completes and puts disk sector 1 at 0x10000 |
| BootLoader.LoadKernelSegments | starter-code-rust/src/kernel/boot.rs:52-64 | the program-header loop reads each header from memory as it stands when its turn comes and loads its segment from sector `p_offset / 512 + 1` (a definition; where each segment lands is SegmentFromFile) |
| BootLoader.Boot | starter-code-rust/src/kernel/boot.rs:43-69 | `boot()` as written never leaves for the kernel unless disk sector 1 starts with 0x7F 'E' 'L' 'F' |
| BootLoader.BootIntended | starter-code-rust/src/kernel/boot.rs:43-69 | the same for `boot()` run with the corrected `boot_readseg` |
| BootDisk.DiskWrite | starter-code-rust/src/build/mkbootdisk.rs:176-208 | `diskwrite` appends the data exactly when no partition limit is set or the end stays within it; otherwise the run stops in `usage` |
| BootDisk.BootSector | starter-code-rust/src/build/mkbootdisk.rs:274-306 | the boot sector is accepted exactly when the block has at most 510 bytes, and is then the block, zeros up to byte 510, and the signature 0x55 0xAA, 512 bytes in all |
| BootDisk.DigitOf | starter-code-rust/src/build/mkbootdisk.rs:331-336 | a character's digit value, as `strtoul` reads it, is below 16, or marks a non-digit |
| BootDisk.WholeNumber | starter-code-rust/src/build/mkbootdisk.rs:331-336 | a number `strtoul` with base 0 reads to the end of the argument never exceeds `ULONG_MAX` |
| BootDisk.EmitFile | starter-code-rust/src/build/mkbootdisk.rs:357-393 | a file argument extends the output, keeps it whole sectors, never lowers the sector count, and stays within a partition limit |
| BootDisk.EmitSkip | starter-code-rust/src/build/mkbootdisk.rs:339-355 | a skip argument extends the output, keeps it whole sectors, never lowers the sector count, and stays within a partition limit |
| BootDisk.EmitArg | starter-code-rust/src/build/mkbootdisk.rs:318-396 | each argument extends the output, keeps it whole sectors and never lowers the sector count |
| BootDisk.Emit | starter-code-rust/src/build/mkbootdisk.rs:317-396 | the argument loop only appends to the output, keeps it whole sectors, and stays within a partition limit |
| BootDisk.PadDisk | starter-code-rust/src/build/mkbootdisk.rs:397-403 | the final loop leaves at least 1024 whole sectors and only appends |
| BootDisk.Payload | starter-code-rust/src/build/mkbootdisk.rs:312-404 | what is written after the boot sector ends the disk at a multiple of 512 bytes, at least 1024 sectors, and within a partition limit |
| BootDisk.ReadSector | starter-code-rust/src/build/mkbootdisk.rs:411-434 | `readsect` returns exactly 512 bytes or stops the run |
| BootDisk.FindPartition | starter-code-rust/src/build/mkbootdisk.rs:437-453 | a table sector without the 0x55 0xAA signature finds nothing, and any selected partition has a positive byte limit that is a multiple of 512 |
| BootDisk.ScanRecords | starter-code-rust/src/build/mkbootdisk.rs:455-517 | the record loop only selects partitions with a positive, sector-multiple byte limit |
| BootDisk.Overwrite | starter-code-rust/src/build/mkbootdisk.rs:470-485 | writing from the partition's first byte puts the data there and keeps every other byte of the disk, extending it with zeros when the data runs past its end |
| BootDisk.MakeBootDiskLayout | starter-code-rust/src/build/mkbootdisk.rs:274-306 | `mkbootdisk BOOT FILE...` produces a disk that starts with the block, zeros and the 0x55 0xAA signature and is whole sectors, at least 1024 of them; a block over 510 bytes stops the run |
| BootDisk.FilePlacement | starter-code-rust/src/build/mkbootdisk.rs:357-393 | a file argument appends the file's bytes, then the zeros that complete its last sector, and the sector count grows by the padded length over 512 |
| BootDisk.FilePadding | starter-code-rust/src/build/mkbootdisk.rs:372-392 | with no partition limit, a file is followed by exactly the zeros that complete its last sector |
| BootDisk.SkipPlacement | starter-code-rust/src/build/mkbootdisk.rs:339-355 | "@N" below the current sector count stops the run; otherwise zero sectors are added until the count is N |
| BootDisk.FirstPartitionSelected | starter-code-rust/src/build/mkbootdisk.rs:456-486 | in a signed table, the first non-empty record of type 0x27, with only empty or other non-extended records before it, is selected, its start counted from the table's own sector and its length in sectors becoming the byte limit |
| BootDisk.ExtendedFollowed | starter-code-rust/src/build/mkbootdisk.rs:488-512 | an extended record (type 0x05, 0x0F or 0x85) sends the scan, depth first, into the table at its start counted from the outermost extended partition, and anything found there is the answer |
| BootDisk.EmptyTableNotFound | starter-code-rust/src/build/mkbootdisk.rs:455-517 | a table whose four records are all zero selects nothing |
| BootDisk.OwnDiskHasNoPartition | starter-code-rust/src/build/mkbootdisk.rs:242-255 | a disk made by `mkbootdisk` from a boot block of at most 446 bytes has an empty partition table, so `-p` on it finds no partition and stops |
| BootDisk.PartitionWrite | starter-code-rust/src/build/mkbootdisk.rs:223-259 | `-p DISK` writes the files from the partition's first byte, padded to whole sectors, at least 1024 of them and never past the partition's length, and keeps every other byte of the disk |
| BootDisk.PartitionDiskIs | starter-code-rust/src/build/mkbootdisk.rs:223-259 | a disk that `-p` succeeds on is the payload written over the selected partition |
| BootDisk.PartitionPayload | starter-code-rust/src/build/mkbootdisk.rs:176-186 | the payload for a partition fills whole sectors, at least 1024 of them, and fits in the partition |
| BootDisk.OverwriteKeeps | starter-code-rust/src/build/mkbootdisk.rs:470-474 | overwriting keeps every byte of the disk outside the written range |
| BootDisk.DecimalNumeral | starter-code-rust/src/build/mkbootdisk.rs:331-336 | a decimal rendering read back as a base-10 numeral gives the number |
| BootDisk.HexNumeral | starter-code-rust/src/build/mkbootdisk.rs:331-336 | a hexadecimal rendering read back as a base-16 numeral gives the number |
| BootDisk.SkipDecimalRoundTrip | starter-code-rust/src/build/mkbootdisk.rs:322-337 | "@" followed by a non-zero sector number written in decimal skips to exactly that sector |
| BootDisk.SkipHexRoundTrip | starter-code-rust/src/build/mkbootdisk.rs:322-337 | "@0x" followed by a sector number written in lowercase hexadecimal skips to exactly that sector |
| BootDisk.SkipAt | starter-code-rust/src/build/mkbootdisk.rs:322-337 | an argument of "@" and a digit is read as a whole number from after the "@" |
| BootDisk.HexWhole | starter-code-rust/src/build/mkbootdisk.rs:331-336 | "0x" and hexadecimal digits whose value is at most `ULONG_MAX` read back as that value |
| BootDisk.MakeBootDisk | starter-code-rust/src/build/mkbootdisk.rs:211-306 | `mkbootdisk BOOT FILE...` succeeds only with a readable boot block, and its disk is whole sectors, at least 1024 of them |
| BootDisk.MakePartitionDisk | starter-code-rust/src/build/mkbootdisk.rs:223-259 | `mkbootdisk -p DISK FILE...` succeeds only when a type-0x27 partition is found; the disk never shrinks and every byte before the partition's first sector is kept |
| Text.Put | starter-code/kernel/rust/src/aux/traits.rs:127-138 | a truncated write never changes the buffer's length |
| Text.WroteIsPut | starter-code/kernel/rust/src/aux/traits.rs:127-138 | a write leaves exactly the longest prefix of the text that fits over the buffer, and the rest of the buffer as it was, with `pos` at the length written; the two descriptions agree both ways |
| Text.WroteNothing | starter-code/kernel/rust/src/aux/mod.rs:16-20 | an untouched buffer at position 0 has written the empty text |
| Text.WroteStep | starter-code/kernel/rust/src/aux/mod.rs:24-32 | one more byte lands at `pos` while there is room and is dropped once the buffer is full |
| Text.WroteAppend | starter-code/kernel/rust/src/aux/traits.rs:148 | writing more text into `buf[pos..]`, as `generate_msg!` does, continues the truncated write of everything so far |
| Text.Decimal | starter-code/kernel/rust/src/aux/traits.rs:43-70 | the decimal numeral is all digits and starts with '0' only for zero, as the single digit "0" |
| Text.DecimalRoundTrip | starter-code/kernel/rust/src/aux/traits.rs:43-70 | the decimal numeral read back gives the number |
| Text.DecimalCanonical | starter-code/kernel/rust/src/aux/traits.rs:43-70 | every numeral without a leading zero is the rendering of its value, so rendering and reading are inverse both ways |
| Text.LeadingDigitNonZero | starter-code/kernel/rust/src/aux/traits.rs:50-60 | a numeral that starts with a non-zero digit denotes a non-zero number |
| Text.DecimalLength | starter-code/kernel/rust/src/aux/traits.rs:54-59 | a number below `10^k` has at most `k` digits |
| Text.DigitBounds | starter-code/kernel/rust/src/aux/traits.rs:19-31 | a `u64` has at most 20 decimal digits and an `i32` magnitude at most 10, so the scratch arrays `[0u8; 21]` and `[0u8; 12]` never overflow |
| Text.Hex | starter-code/kernel/rust/src/aux/traits.rs:85-102 | the hexadecimal numeral consists of lowercase hex digits and starts with '0' only for zero |
| Text.HexRoundTrip | starter-code/kernel/rust/src/aux/traits.rs:85-102 | the hexadecimal numeral read back gives the number |
| Text.HexDigitValue | starter-code/kernel/rust/src/aux/traits.rs:92-96 | nibbles below 10 become '0' to '9' and the rest 'a' to 'f', and each character reads back as its nibble |
| Text.UntilNul | starter-code/kernel/rust/src/aux/traits.rs:107-125 | the bytes an array contributes are a prefix of it that ends at its first NUL, or all of it when it has none |
| Text.DigitsReversed | starter-code/kernel/rust/src/aux/traits.rs:50-60 | the first loop collects the digits least significant first, so reversing them gives the decimal numeral |
| Text.Reverse | starter-code/kernel/rust/src/aux/traits.rs:61-67 | reversing keeps the length |
| Text.EmitReversed | starter-code/kernel/rust/src/aux/traits.rs:61-67 | the second loop writes the collected digits from last to first, truncated to the buffer |
| Text.U64ToText | starter-code/kernel/rust/src/aux/traits.rs:44-70 | `to_text` for `u64` writes the decimal numeral truncated to the buffer and returns at most 20 |
| Text.I32ToText | starter-code/kernel/rust/src/aux/traits.rs:8-41 | `to_text` for `i32` writes '-' for a negative value and then the magnitude's numeral, truncated; it panics exactly for `i32::MIN`, whose negation overflows |
| Text.PointerToText | starter-code/kernel/rust/src/aux/traits.rs:73-105 | `to_text` for a pointer writes "0x" and the address's hexadecimal numeral without leading zeros, truncated to the buffer |
| Text.EmitNibbles | starter-code/kernel/rust/src/aux/traits.rs:85-102 | the nibble loop writes the address's hexadecimal numeral after the prefix |
| Text.NextNibble | starter-code/kernel/rust/src/aux/traits.rs:87-101 | one turn writes nibble `i` once a non-zero nibble has been seen, and always for the last one, keeping the digits shown equal to the numeral of the address shifted right by `4i` |
| Text.QuotEnds | starter-code/kernel/rust/src/aux/traits.rs:85 | sixteen nibbles hold a 64-bit address: nothing lies above them |
| Text.EmitStep | starter-code/kernel/rust/src/aux/traits.rs:90-100 | writing a shown nibble extends the truncated write of the prefix and the digits so far |
| Text.NibbleEmitted | starter-code/kernel/rust/src/aux/traits.rs:90-96 | a shown nibble extends the numeral to that of the address shifted right by `4i` |
| Text.NibbleSkipped | starter-code/kernel/rust/src/aux/traits.rs:90 | a leading zero nibble is skipped, and nothing has been shown yet |
| Text.Nibble | starter-code/kernel/rust/src/aux/traits.rs:89 | `(addr >> 4i) & 0xF` is below 16 |
| Text.HexShown | starter-code/kernel/rust/src/aux/traits.rs:87-101 | showing nibble `i` after those above it gives the numeral of the address shifted right by `4i` |
| Text.ArrayToText | starter-code/kernel/rust/src/aux/traits.rs:107-125 | `to_text` for a byte array writes the bytes up to and including the first NUL, truncated to the buffer |
| Text.UntilNulAt | starter-code/kernel/rust/src/aux/traits.rs:116-118 | an array whose first NUL is at `j` contributes exactly its first `j + 1` bytes |
| Text.UntilNulPast | starter-code/kernel/rust/src/aux/traits.rs:112-122 | the contribution keeps every byte before the first NUL |
| Text.UntilNulAll | starter-code/kernel/rust/src/aux/traits.rs:112-122 | an array without NUL contributes all of its bytes |
| Text.WroteFull | starter-code/kernel/rust/src/aux/traits.rs:119-121 | once the buffer is full, a longer text leaves the same buffer and position |
| Text.StrToText | starter-code/kernel/rust/src/aux/traits.rs:128-138 | `to_text` for `&str` writes as many of its bytes as fit |
| Text.GenerateMsg | starter-code/kernel/rust/src/aux/traits.rs:140-152 | `generate_msg!` keeps the buffer's size, only moves the position forward within it, and leaves the bytes before the start and after the final position as they were |
| Text.GenerateMsgWritesConcat | starter-code/kernel/rust/src/aux/traits.rs:140-152 | `generate_msg!` writes the renderings end to end, truncated to the buffer, returns how much fitted, and panics exactly when one rendering does |
| Text.NewWriter | starter-code/kernel/rust/src/aux/mod.rs:16-20 | a new writer starts at position 0 over the given buffer |
| Text.WriteStr | starter-code/kernel/rust/src/aux/mod.rs:22-35 | `write_str` always returns `Ok`, keeps the buffer's length, and only advances the position within it |
| Text.WriteStrAppends | starter-code/kernel/rust/src/aux/mod.rs:22-35 | `write_str` continues the truncated write of everything written so far, in both copies of the writer (uspace/aux.rs:19-31 too) |
| Text.WriteAll | starter-code/kernel/rust/src/aux/mod.rs:22-35 | a run of writes keeps the buffer's length and the position within it |
| Text.WritesAccumulate | starter-code/kernel/rust/src/aux/mod.rs:11-35 | after any writes from `new`, the buffer holds the longest prefix of their concatenation that fits, `pos` is its length, and the bytes from `pos` on are untouched |
| Text.WriteAllAppends | starter-code/kernel/rust/src/aux/mod.rs:22-35 | a run of writes continues the truncated write of everything so far |
| Text.CMessage | starter-code/kernel/rust/src/lib.rs:59-104 | the buffer `c_panic!`, `c_log!` and `c_console!` hand to C is 256 bytes long and always ends in NUL |
| Text.CMessageText | starter-code/kernel/rust/src/lib.rs:59-104 | `c_panic!`, `c_log!` and `c_console!` hand C a NUL-terminated 256-byte buffer whose string is the first `min(len, 255)` bytes of the rendered message, when the renderings hold no NUL |
| Text.TerminatedText | starter-code/kernel/rust/src/lib.rs:63-67 | the terminator at `len`, or over the last byte when the buffer is full, cuts the string to `min(len, 255)` bytes |
| Text.PanicMessage | starter-code/kernel/rust/src/lib.rs:110-132 | the panic handler's buffer stays 256 bytes long |
| Text.PanicPiecesConcat | starter-code/kernel/rust/src/lib.rs:117-122 | the pieces `write!` hands over lay out "file:line: " before the message, or the message alone without a location |
| Text.PanicMessageText | starter-code/kernel/rust/src/lib.rs:110-132 | the panic handler passes C the first `min(len, 255)` bytes of "file:line: message" as a NUL-terminated string, when file and message hold no NUL |
| SharedLib.Min | starter-code-rust/src/shared/lib.rs:165-170 | `MIN!` is a lower bound of both arguments and one of them |
| SharedLib.Max | starter-code-rust/src/shared/lib.rs:172-177 | `MAX!` is an upper bound of both arguments and one of them |
| SharedLib.RoundDown | starter-code-rust/src/shared/lib.rs:179-184 | `ROUNDDOWN!` is a multiple of `n`, not above `a`, and less than `n` below it |
| SharedLib.RoundUp | starter-code-rust/src/shared/lib.rs:186-191 | `ROUNDUP!` is a multiple of `n`, not below `a`, and less than `n` above it; a multiple of `n` is kept |
| SharedLib.RoundUpStep | starter-code-rust/src/shared/lib.rs:186-191 | the added amount `(n - a % n) % n` is zero for a multiple of `n` and `n - a % n` otherwise, and lands on a multiple |
| SharedLib.RoundingIsTight | starter-code-rust/src/shared/lib.rs:179-191 | no multiple of `n` lies strictly between `ROUNDDOWN!(a, n)` and `a`, nor between `a` and `ROUNDUP!(a, n)` |
| SharedLib.MultiplesApart | starter-code-rust/src/shared/lib.rs:179-191 | two different multiples of `n` are at least `n` apart |
| SharedLib.StrLen | starter-code-rust/src/shared/lib.rs:78-80 | `strlen` is the index of the first NUL: that byte is 0 and none before it is |
| SharedLib.CTextOf | starter-code-rust/src/shared/lib.rs:78-80 | a text followed by a NUL is a C string with exactly that text |
| SharedLib.StrNLen | starter-code-rust/src/shared/lib.rs:82-84 | `strnlen` is the string's length capped at `maxlen` |
| SharedLib.StrCpy | starter-code-rust/src/shared/lib.rs:251-264 | `strcpy` copies the source's bytes and its NUL over the start of the destination, keeps the rest, and leaves a C string with the source's text |
| SharedLib.StrChr | starter-code-rust/src/shared/lib.rs:266-278 | `strchr` finds the first position before the NUL whose byte, read as a signed char, equals `c`, and nothing when there is none; searching for 0 finds nothing |
| SharedLib.Compare | starter-code-rust/src/shared/lib.rs:96-98 | the byte-string order gives -1, 0 or 1, and 0 exactly for equal strings |
| SharedLib.StrCmp | starter-code-rust/src/shared/lib.rs:96-98 | `strcmp` gives -1, 0 or 1, and 0 exactly when the two C strings have the same text |
| SharedLib.CompareAntisymmetric | starter-code-rust/src/shared/lib.rs:96-98 | swapping the arguments negates the comparison |
| SharedLib.CompareIsLexicographic | starter-code-rust/src/shared/lib.rs:96-98 | the comparison is -1 exactly when the first string is a proper prefix of the second or smaller at the first byte where they differ |
| Vga.Value | starter-code-rust/src/vga_buffer.rs:20-37 | each of the sixteen colours has a 4-bit value that decodes back to the same colour |
| Vga.ColorCode | starter-code-rust/src/vga_buffer.rs:45-48 | the low nibble of the attribute byte is the foreground colour and the high nibble the background colour |
| Vga.InitialWriter | starter-code-rust/src/vga_buffer.rs:77-84 | the global writer starts at column 0 on a 25×80 screen with yellow on black (`0x0e`) |
| Vga.BlankRow | starter-code-rust/src/vga_buffer.rs:133-142 | a blank row is 80 spaces in the writer's colour |
| Vga.Scroll | starter-code-rust/src/vga_buffer.rs:121-131 | a new line moves every row up by one, loses the top row, blanks the bottom row and returns the cursor to column 0, keeping the colour |
| Vga.ClearRow | starter-code-rust/src/vga_buffer.rs:133-142 | clearing a row blanks exactly that row, leaves every other row and the cursor alone |
| Vga.NewLine | starter-code-rust/src/vga_buffer.rs:121-131 | the row-by-row copy loop followed by `clear_row` produces exactly the scrolled screen |
| Vga.WriteByte | starter-code-rust/src/vga_buffer.rs:87-107 | a newline scrolls; any other byte lands in the bottom row at the cursor (after a scroll if the row is full), the cursor advances by one, and no other cell changes |
| Vga.Shown | starter-code-rust/src/vga_buffer.rs:110-116 | printable ASCII and newline are kept; every other byte is shown as `0xfe` |
| Vga.WriteString | starter-code-rust/src/vga_buffer.rs:109-119 | writing a string keeps the screen well formed and the colour unchanged |
| Vga.WriteStr | starter-code-rust/src/vga_buffer.rs:145-149 | `write_str` writes the string and always reports success |
| Vga.ShownAll | starter-code-rust/src/vga_buffer.rs:110-116 | the filtered string has the same length and each byte replaced as `write_string` replaces it |
| Vga.WriteStringShowsBytes | starter-code-rust/src/vga_buffer.rs:109-119 | writing a string equals writing its filtered bytes one by one with `write_byte` |
| Vga.WriteStringAppend | starter-code-rust/src/vga_buffer.rs:109-119 | writing `a + b` equals writing `a` and then `b` |
| Vga.Cells | starter-code-rust/src/vga_buffer.rs:99-102 | the cells for a byte string carry the bytes in order, each in the given colour |
| Vga.PutCell | starter-code-rust/src/vga_buffer.rs:90-105 | a printable byte with room left in the row overwrites exactly the cursor cell and advances the cursor |
| Vga.WriteWithinRow | starter-code-rust/src/vga_buffer.rs:109-119 | printable text that fits in the rest of the bottom row lands there from the cursor on, the cursor moves past it, and every other cell is unchanged |
| Vga.NewlineScrolls | starter-code-rust/src/vga_buffer.rs:88-89 | writing a lone newline scrolls the screen |
| Vga.PrintedLineVisible | starter-code-rust/src/vga_buffer.rs:207-222 | after `writeln!(w, "\n{}", s)` with a printable line that fits, the next-to-bottom row starts with `s` and the bottom row is blank |
| HeapInfo.Swap | starter-code/tests/p-heapinfo.c:20-31 | `SWAP` exchanges the two elements and leaves every other element where it was |
| HeapInfo.SwapRearranges | starter-code/tests/p-heapinfo.c:20-31 | a swap inside a segment keeps the array a rearrangement of the original confined to that segment |
| HeapInfo.RearrangedWhole | starter-code/tests/p-heapinfo.c:20-31 | a rearrangement confined to a segment is a permutation of the whole array |
| HeapInfo.MedianOfThree | starter-code/tests/p-heapinfo.c:73-82 | after the median-of-three step the elements at `lo`, `mid` and `hi` are in order, `mid` is the middle index, and only the segment was rearranged |
| HeapInfo.ScanUp | starter-code/tests/p-heapinfo.c:90-91 | the left scan stops at the first element not below the pivot, and every element it passed is at most the pivot |
| HeapInfo.ScanDown | starter-code/tests/p-heapinfo.c:92-93 | the right scan stops at the first element not above the pivot, and every element it passed is at least the pivot |
| HeapInfo.CollapseWalls | starter-code/tests/p-heapinfo.c:83-111 | "collapse the walls" ends with the walls crossed inside the segment, everything up to `right` at most the pivot and everything after it at least the pivot, by swaps within the segment |
| HeapInfo.PartitionSegment | starter-code/tests/p-heapinfo.c:73-111 | one partition step splits `[lo, hi]` into two non-empty ordered parts by rearranging only that segment |
| HeapInfo.NextShape | starter-code/tests/p-heapinfo.c:116-139 | choosing the next segment (drop small parts, push the larger, keep the smaller) keeps every segment well formed and strictly decreases the work left |
| HeapInfo.NextDepth | starter-code/tests/p-heapinfo.c:128-139 | pushing the larger part and keeping the smaller keeps the `k`-th stack node at most `n / 2^k` long |
| HeapInfo.PhaseStackFits | starter-code/tests/p-heapinfo.c:41-42 | with fewer than 2^64 elements the explicit stack never needs more than the `STACK_SIZE` (64) nodes reserved for it |
| HeapInfo.PartitionPhase | starter-code/tests/p-heapinfo.c:57-141 | the quicksort phase permutes the array so that the first at most five elements all rank below the rest, using at most `STACK_SIZE` stack nodes |
| HeapInfo.SmallestToFront | starter-code/tests/p-heapinfo.c:149-160 | searching the first `MAX_THRESH + 1` elements puts the least element of the whole array first, by a permutation |
| HeapInfo.ShiftIn | starter-code/tests/p-heapinfo.c:169-181 | the byte rotation moves the element at `run` to position `t` and shifts `t..run-1` up by one |
| HeapInfo.ShiftInReorders | starter-code/tests/p-heapinfo.c:169-181 | the rotation is a permutation of the array |
| HeapInfo.ScanBack | starter-code/tests/p-heapinfo.c:165-168 | the backward scan stops just after the last element not above the new one, which the least element at the front guarantees |
| HeapInfo.InsertSorted | starter-code/tests/p-heapinfo.c:165-181 | inserting the new element where the scan stopped extends the sorted prefix by one |
| HeapInfo.InsertOne | starter-code/tests/p-heapinfo.c:163-182 | one insertion step is a permutation that extends the sorted prefix by one and keeps the least element first |
| HeapInfo.InsertionPass | starter-code/tests/p-heapinfo.c:161-182 | the insertion sort turns an array with its least element first into a sorted permutation of it |
| HeapInfo.Quicksort | starter-code/tests/p-heapinfo.c:48-184 | `_quicksort` returns a permutation of its input ordered by the comparator; arrays of at most `MAX_THRESH` elements need no stack, and longer ones at most `STACK_SIZE` nodes |
| HeapInfo.LongToInt | starter-code/tests/p-heapinfo.c:190 | the `(int)` cast keeps any `long` that fits in 32 bits |
| HeapInfo.PtrComparator | starter-code/tests/p-heapinfo.c:186-191 | the intended comparator is negative exactly when the first record is larger and positive exactly when it is smaller |
| HeapInfo.PtrComparatorRanked | starter-code/tests/p-heapinfo.c:186-191 | the intended comparator is consistent with ordering records by decreasing size |
| HeapInfo.PtrComparatorAsWritten | starter-code/tests/p-heapinfo.c:186-191 | for sizes below 2^30 the comparator as written is defined, negative exactly when the first record is larger and positive exactly when it is smaller |
| HeapInfo.TestComparator | starter-code/tests/p-heapinfo.c:186-191 | on the test's records the comparator as written never overflows and orders larger sizes first |
| HeapInfo.TestComparatorRanked | starter-code/tests/p-heapinfo.c:186-191 | on the test's records the comparator as written is consistent with ordering by decreasing size |
| HeapInfo.PtrComparatorTruncates | starter-code/tests/p-heapinfo.c:190 | a record of 2^31 bytes against an empty one: the cast wraps to a negative `int`, so the comparator as written orders the smaller record first |
| HeapInfo.SortBySize | starter-code/tests/p-heapinfo.c:225-239 | the test's sort with `ptr_comparator` as written, on the records the allocation loop builds (sizes below 2^30), leaves a permutation of them with sizes non-increasing |
| HeapInfo.SortBySizeIntended | starter-code/tests/p-heapinfo.c:239 | the same sort with the intended comparator leaves any records, whatever their sizes, as a permutation with sizes non-increasing |
| HeapInfo.FirstHolding | starter-code/tests/p-heapinfo.c:196-197 | finds the first of the first `len` records with the given pointer, or reports that none has it |
| HeapInfo.ExistsInBetween | starter-code/tests/p-heapinfo.c:194-208 | `exists_in_between` returns 1 exactly when the first record holding `ptr` has a size of at most `size`, and 0 otherwise |

## Left out

- Hardware access: port I/O, control-register moves, `rdtsc`, `lcr3`, the ATA handshake of `boot_readsect`/`boot_waitdisk`, the IDT/GDT/TSS/PIC set-up and the keyboard handler. These are effects on the machine with no logic of their own, so loading a page table is only a change of the active table.
- Register restore and the return to user mode in `run` (`exception_return`): `run` is modelled only as making the process current.
- Console and display output: `memshow_*`, `console_printf`, `log_printf`, the cursor and colour tables and `check_keyboard`. The messages that panics and page faults print are not modelled; only their effect on the state is.
- `process_init`, `palloc`, `process_fork`, `process_free`, `process_page_alloc`, `default_exception` and `physical_memory_isreserved` are declared but not defined in the core. They are parameters: `Traps.Externals`, `KernelMain.Machine`, the `reserved` argument of `PhysicalPages.PageinfoInit`, and the `pages` oracle of the loader.
- `sbrk`, `syscall_brk` and `syscall_sbrk` in `syscalls.rs` have empty bodies and are not called by either handler; the C handler's `BRK`/`SBRK` arms change nothing, and the Rust handler's go to `default_exception`.
- `lookup_l1pagetable` and the body of `virtual_memory_map` are partly left for students to write (`pe = 0` placeholders in `vm.c` and `vm.rs`). The model follows their documented contract, their assertions and the branches that exist.
- The copy of the `INT_SYS_PANIC` message from user memory: the C handler's panic is modelled as a `Panicked` outcome whatever the message.
- Byte copies through raw pointers (`memcpy`, `copy_from_nonoverlapping`): memory is a map from addresses to bytes, and a copy is a map update.
- Host file handling of `mkbootdisk` (open, read, seek, `errno` reporting) and its `-m` multiboot path, which refers to items the tool never defines. Files are byte sequences and a run that would end in `usage()` is `None`.
- `shared/lib.rs` carries a second `strchr` (lines 100-103) that compares `c as u8`; `SharedLib.StrChr` models the one at lines 266-278.
- SharedLib.StrLen: models the `CStr`-based `strlen` of `shared/lib.rs:78-80`. The same file also defines an exported C `strlen` (lines 235-241) that walks to the NUL and then panics unconditionally; that version is not modelled. Because the file defines `strlen`, `strnlen` and `strcpy` twice each, it does not compile as written, so which definition a caller gets is not settled by the source.
- SharedLib.StrNLen: models the `CStr`-based `strnlen` of lines 82-84. The exported C `strnlen` at lines 243-249 has only a `panic!` as its body; that always-panicking version is not modelled.
- SharedLib.StrCpy: models the exported `strcpy` of lines 251-264. The one at lines 86-94 copies the same bytes and the same NUL by index instead of by moving pointers, so both have the effect the contract states.
- SharedLib.RoundUp: computes `a + (n - a % n) % n` on unbounded integers. `ROUNDUP!` works in its caller's fixed-width type, so within `n` of that type's maximum the addition overflows (a panic or a wrap, depending on the build); that case is not modelled.
- Locks (`spin::Mutex`, `lazy_static`): the kernel runs on one CPU with interrupts off, so the VGA writer is a value passed from call to call.
- BootDisk.FindPartition: the recursion into extended partitions carries a fuel bound, and a chain of extended partitions deeper than the fuel ends in `OutOfFuel` where the tool would keep reading.
- KernelState.EncodeMapping: the four padding bytes after `pn` and the four after `perm` are those of an uninitialised stack `vamapping` in kernel.c, so the bytes `syscall_mapping` copies there are indeterminate; the model writes zeros, and no contract depends on them.
- VirtualMemory.MapLoopEffect: stated under `LoopReady`: page-aligned `va` and `sz`, a range below 2^47 so that `va >> 21` fits the `i32` region key, walks of the range that do not panic (`Walkable`) and whose upper-level tables are not among the slots written (`Separated`), and a cached level-1 table that agrees with `lookup_l1pagetable` for the first page of its region. Loops entered outside these conditions are not covered.
- VirtualMemory.VirtualMemoryMapEffect: stated for ranges below 2^47, the lower half of the canonical address space, where `va >> 21` fits the `i32` key the map caches level-1 tables by. It also assumes the range's level-1 tables do not hold the upper-level tables the walk passes through (`Separated`), so a walk whose tables alias the entries being written is not covered.
- VirtualMemory.VirtualMemoryMapRoundTrip: stated for ranges below 2^47, the lower half of the canonical address space, where `va >> 21` fits the `i32` key the map caches level-1 tables by. It also assumes the range's level-1 tables do not hold the upper-level tables the walk passes through (`Separated`), so a walk whose tables alias the entries being written is not covered.
- VirtualMemory.VirtualMemoryMapWithoutPresent: stated for ranges below 2^47, the lower half of the canonical address space, where `va >> 21` fits the `i32` key the map caches level-1 tables by. It also assumes the range's level-1 tables do not hold the upper-level tables the walk passes through (`Separated`), so a walk whose tables alias the entries being written is not covered.
- KernelPageTable.VirtualMemoryInitIdentity assumes that `kernel_pagetables` is page aligned and lies inside physical memory, as the kernel's linker layout places it.

- Build profile: the Rust members model an overflow-checked build, in which an integer overflow panics (Cargo's default development profile); the build configuration itself is not part of this model. The members below deviate from that profile or depend on it.
- VirtualMemory.MapArgumentsOk: follows the wrapping reading of `va + sz >= va || va + sz == 0` at vm.rs:84 and accepts a range ending exactly at 2^64; an overflow-checked build panics on that addition instead.
- VirtualMemory.VirtualMemoryMap: inherits the wrapping range check of `MapArgumentsOk`, so a range ending at 2^64 is mapped rather than panicking.
- VirtualMemory.NextAddr: `va += PAGESIZE` and `pa += PAGESIZE` at vm.rs:123-124 wrap at 2^64 here; an overflow-checked build panics on the last step of a range ending at 2^64, or when an ignored `pa` is near 2^64.
- VirtualMemory.MapLoop: steps with `NextAddr`, so it wraps where an overflow-checked build would panic.
- Traps.TimerTicksRust: the panic at `ticks` = 2^32 - 1 holds only in an overflow-checked build; a release build wraps to 0, as the C handler does.
- Traps.TimerArmRust: the same overflow-checked `ticks += 1`.
- KernelMain.ShareKernelTable: the refcount of the kernel's table is an `i8`; the increment panics at 127 as an overflow-checked build does, where a release build would wrap to -128.
- Loader.AllocateWith: `addr += PAGESIZE` panics at 2^64, as in an overflow-checked build.
- Loader.RemapWith: the same overflow-checked `addr += PAGESIZE` in the write-protection loop.
- Loader.ProgramLoadSegment: `va + p_filesz` and `va + p_memsz` panic on overflow, as in an overflow-checked build.
- Text.I32ToText: negating `i32::MIN` panics, as in an overflow-checked build.
- KernelState.SyscallMappingAsWritten: the model keeps page tables and ordinary bytes in two separate stores, so the 24-byte copy can never reach a page table, and the contract's `r.tables == s.tables` relies on that. In the kernel, `virtual_memory_init` maps all physical memory P|W|U (vm.c:27-34), so a process whose `rdi` points into a page-table page overwrites 24 bytes of a live table. That case is not modelled.
- KernelState.SyscallMapping: the same separation of tables and bytes; a copy onto a page-table page is not modelled.
- KernelState.SyscallMappingSpec: the corrected call checks the virtual pages of the record's first and last bytes but still writes 24 contiguous physical bytes from `map.pa` (kernel.c:154). When the record crosses a page whose frame is not the one after `map.pa`'s, the page that was checked is not the frame that is written. The model does not write the tail through the second page's mapping.
- KernelState.RecordPages: covers the record's virtual addresses only; the frames the copy writes are those after `map.pa`, as `SyscallMappingSpec` states.
- KernelState.SyscallMappingCounterexample: shows that the bytes land contiguously from the physical address behind `rdi`, the last 8 on the next physical frame. It does not show that they reach the frame behind `0x101000`, which is true only under an identity mapping.
- Elf.ByteAt: a read past the end of a RAM image or of the disk yields 0. The kernel loaders copy `p_filesz` bytes from `p_offset` (plus the `p_va % 4096` bytes that rounding `va` down adds) with no bound against the image's length, so there they read whatever memory follows the image; a boot-loader read of a sector past the disk's end returns an error status that `boot_waitdisk` does not check. The byte contracts of `Loader.LoadedBytesEffect`, `Loader.ProgramLoadSegmentEffect`, `BootLoader.SegmentFromFile` and the boot reader lemmas state zeros for those bytes.
- SegmentLoad.ProgramLoadSegmentMaps: stated for the model's own `virtual_memory_map` and `virtual_memory_lookup`, and for tables `Ready` for the segment: a page-aligned root, a range below 2^47, a level-1 table for every page (`AllHaveL1`), and walks that do not pass through the leaf slots written (`Separated`). A load into a table without those level-1 tables fails with -1 and is covered by `Loader.ProgramLoadSegmentEffect` only.
- HeapInfo.SortBySize: stated for records whose sizes are below 2^30, as the test's allocation loop builds them (each `malloc` of an `int` size must succeed below the 0x280000 break). Larger sizes make the comparator as written overflow or truncate, which `HeapInfo.PtrComparatorTruncates` shows.

## Findings

| source | as written | input that shows it | evidently intended | confidence | as-written member | corrected member |
|---|---|---|---|---|---|---|
| starter-code/kernel/c/vm.c:144 | each level's entry is masked with `~(pe & (PTE_W\|PTE_U))`, which clears W and U where the level above GRANTED them and keeps them where it withheld them | tables `0x1000 -> 0x2001 -> 0x3007 -> 0x4007 -> 0x5007` at address 0: the level-0 entry grants neither W nor U, yet the lookup reports both | a page is writable or user-accessible only when every level grants it (`pe & (~(PTE_W\|PTE_U) \| prev)`) | not executed | PageTables.LookupMaskFinding | PageTables.LookupIntendedPerm |
| starter-code-rust/src/kernel/boot.rs:87-92 | the zero-fill loop runs `while ptr < memsz`, comparing an address with a size | a segment at 0x40000 with `filesz` 0 and `memsz` 0x100: nothing is cleared | clear up to `dst + memsz` | not executed | BootLoader.ZeroFillCounterexample | BootLoader.BootReadSegSpec |
| starter-code-rust/src/kernel/boot.rs:103 | the low LBA byte is `src_sect.try_into().unwrap()`, which panics, and so hangs the loader, for any sector past 255 | a segment whose data starts at sector 256 | the low eight bits of the sector number, as the next three lines take bits 8 to 31 | not executed | BootLoader.SectorByteCounterexample | BootLoader.BootReadSegSpec |
| starter-code/kernel/c/kernel.c:145 | the record's last page is checked for W only when it differs from the page of `ptr` (`rsi`) | `rdi` = 0x100FF0 on a page granting W and U, `rsi` = 0x101000, and the page of 0x101007 not writable: the last 8 bytes land on the next physical frame; the check of the read-only page is skipped | check the last page whenever it differs from the record's first page (`mapping_ptr`) | not executed | KernelState.SyscallMappingCounterexample | KernelState.SyscallMappingSpec |
| starter-code/tests/p-heapinfo.c:190 | `(int)b->size - (int)a->size` truncates both sizes to `int` | a record of 2^31 bytes against an empty one: the difference is negative, so the smaller record sorts first | compare the `long` sizes, larger first | not executed | HeapInfo.PtrComparatorTruncates | HeapInfo.PtrComparatorRanked |

How each row is modelled:
- Lookup mask. `PageTables.VirtualMemoryLookup` follows line 144 as written and is the lookup the kernel model uses. `PageTables.VirtualMemoryLookupIntended` is the corrected walk. The two agree on every path that `lookup_l1pagetable`'s assertions allow `virtual_memory_map` to build (`VirtualMemory.MapsRangeTranslates`).
- Boot-loader rows. `BootLoader.BootReadSegAsWritten` and `BootLoader.BootReadSectAsWritten` model the code as written, and `BootLoader.Boot` loads the kernel with them. `BootLoader.BootReadSeg` and `BootLoader.BootReadSect` are the corrected versions, which `BootLoader.BootIntended` uses.
- `syscall_mapping`. `KernelState.SyscallMappingAsWritten` follows the source and is what both trap handlers call. `KernelState.SyscallMapping` is the corrected version, described by `KernelState.SyscallMappingSpec`.
- Comparator. `HeapInfo.PtrComparatorAsWritten` is the comparator as written, and `HeapInfo.SortBySize` sorts with it on the test's records. `HeapInfo.PtrComparator` is the corrected one, which `HeapInfo.SortBySizeIntended` uses for records of any size.
