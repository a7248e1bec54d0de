/** Paging arithmetic, page-table-entry encoding and trap numbers of the x86-64
    bindings: `bindings_x86_64.rs` of the kernel crate and the shared `x86_64.rs`.
    Machine words are integers bounded by their width; every shift, mask and
    truncating cast of the source is written out as division and remainder. */
module X86 {

  const TWO_32: int := 0x1_0000_0000
  const TWO_64: int := 0x1_0000_0000_0000_0000

  /** `u64` / `usize` / `uintptr_t`. */
  type U64 = x: int | 0 <= x < TWO_64
  /** `c_int` / `i32` / `pid_t`. */
  type I32 = x: int | -0x8000_0000 <= x < 0x8000_0000
  /** `u8`. */
  type Byte = x: int | 0 <= x < 256
  /** `u16`. */
  type U16 = x: int | 0 <= x < 0x1_0000
  /** `u32` / `unsigned`. */
  type U32 = x: int | 0 <= x < TWO_32
  /** `i8` / `int8_t`. */
  type I8 = x: int | -128 <= x < 128

  /** `x as c_int` for an unsigned value: keep the low 32 bits and read them as
      two's complement. */
  function ToI32(x: nat): (r: I32)
    ensures r % TWO_32 == x % TWO_32
    ensures x < 0x8000_0000 ==> r == x
  {
    var low := x % TWO_32;
    if low < 0x8000_0000 then low else low - TWO_32
  }

  /** `x as u64` for a signed value: two's-complement sign extension. */
  function SignExtend(x: I32): (r: U64)
    ensures r % TWO_64 == x % TWO_64
    ensures x >= 0 ==> r == x
  {
    if x >= 0 then x else x + TWO_64
  }

  function Pow2(n: nat): (r: nat)
    ensures r >= 1
  {
    if n == 0 then 1 else 2 * Pow2(n - 1)
  }

  /** Byte strings laid end to end. */
  function Concat(pieces: seq<seq<Byte>>): seq<Byte>
  {
    if |pieces| == 0 then [] else pieces[0] + Concat(pieces[1..])
  }

  lemma ConcatCons(p: seq<Byte>, rest: seq<seq<Byte>>)
    ensures Concat([p] + rest) == p + Concat(rest)
  {
    assert ([p] + rest)[1..] == rest;
  }

  /** One more piece at the end extends the concatenation by that piece. */
  lemma {:induction false} ConcatAppend(pieces: seq<seq<Byte>>, p: seq<Byte>)
    ensures Concat(pieces + [p]) == Concat(pieces) + p
    decreases |pieces|
  {
    if |pieces| == 0 {
      assert pieces + [p] == [p] + [];
      ConcatCons(p, []);
    } else {
      ConcatAppend(pieces[1..], p);
      assert (pieces + [p])[1..] == pieces[1..] + [p];
    }
  }

  // ---------------------------------------------------------------- paging constants

  const PAGEOFFBITS: nat := 12
  const PAGESIZE: nat := 4096
  const PAGEINDEXBITS: nat := 9
  const NPAGETABLEENTRIES: nat := 512
  const PAGEOFFMASK: nat := 4095
  const PTE_FLAGS_MASK: nat := 0xFFF

  /** The sizing constants are the powers of two their bit counts name. */
  lemma PagingConstants()
    ensures PAGESIZE == Pow2(PAGEOFFBITS) && PAGEOFFMASK == PAGESIZE - 1
    ensures NPAGETABLEENTRIES == Pow2(PAGEINDEXBITS)
    ensures PTE_FLAGS_MASK == PAGEOFFMASK
  {
    assert Pow2(9) == 512;
    assert Pow2(12) == 8 * Pow2(9);
  }

  // ---------------------------------------------------------------- page numbers

  /** `page_number(pa)`: `(pa >> PAGEOFFBITS) as c_int`, truncating to 32 bits.
      Below 2^43 nothing is truncated and the result is the number of the
      page that holds `pa`. */
  function PageNumber(pa: U64): (r: I32)
    ensures pa < 0x800_0000_0000 ==> 0 <= r && r * PAGESIZE <= pa < r * PAGESIZE + PAGESIZE
  {
    ToI32(pa / PAGESIZE)
  }

  /** `page_address(pn)`: `(pn as u64) << PAGEOFFBITS`, sign-extending and
      dropping the bits shifted out of the word. The result is always page
      aligned, and a non-negative page number is recovered from it. */
  function PageAddress(pn: I32): (r: U64)
    ensures r % PAGESIZE == 0
    ensures 0 <= pn ==> r / PAGESIZE == pn
  {
    var x := SignExtend(pn) * PAGESIZE;
    var q := x / TWO_64;
    assert x % TWO_64 == (SignExtend(pn) - q * 0x10_0000_0000_0000) * PAGESIZE;
    ModUnique(x % TWO_64, PAGESIZE, SignExtend(pn) - q * 0x10_0000_0000_0000, 0);
    x % TWO_64
  }

  /** `page_offset(addr)` / `pageoffset(addr)`: `addr & PAGEOFFMASK`. */
  function PageOffset(addr: U64): (r: nat)
    ensures r < PAGESIZE
  {
    addr % PAGESIZE
  }

  /** `addr & !PAGEOFFMASK`: the address with its low 12 bits cleared. */
  function PageDown(addr: U64): (r: U64)
    ensures r % PAGESIZE == 0 && r <= addr && r <= TWO_64 - PAGESIZE
    ensures r + PageOffset(addr) == addr
  {
    var q := addr / PAGESIZE;
    assert q < TWO_64 / PAGESIZE;
    assert addr - addr % PAGESIZE == q * PAGESIZE;
    addr - addr % PAGESIZE
  }

  /** Adding an offset within the page keeps the page number. */
  lemma PageNumberWithin(x: U64, o: nat)
    requires x % PAGESIZE == 0 && o < PAGESIZE && x + o < TWO_64
    ensures PageNumber(x + o) == PageNumber(x)
  {
    ModUnique(x + o, PAGESIZE, x / PAGESIZE, o);
  }

  /** `pagernumber(ptr)` of the shared crate: `ptr >> PAGEOFFBITS` on `usize`. */
  function PagerNumber(ptr: U64): (r: U64)
  {
    ptr / PAGESIZE
  }

  /** `pageaddress(pn)` of the shared crate: `pn << PAGEOFFBITS` on `usize`. */
  function PageAddressUsize(pn: U64): (r: U64)
  {
    (pn * PAGESIZE) % TWO_64
  }

  /** A page number in `0 .. 2^31` survives the trip to an address and back. */
  lemma PageNumberOfPageAddress(pn: I32)
    requires 0 <= pn
    ensures PageNumber(PageAddress(pn)) == pn
  {
    assert PageAddress(pn) == pn * PAGESIZE;
  }

  /** Below 2^43 the page number keeps all bits, so going back to an address
      only clears the page offset. */
  lemma PageAddressOfPageNumber(pa: U64)
    requires pa < 0x800_0000_0000
    ensures PageAddress(PageNumber(pa)) == pa - PageOffset(pa)
  {
    var q := pa / PAGESIZE;
    assert q < 0x8000_0000;
    assert PageNumber(pa) == q;
    assert q * PAGESIZE == pa - pa % PAGESIZE;
  }

  /** The 2^43 bound is tight: from 2^43 on the `as c_int` cast in
      `page_number` wraps the page number. */
  lemma PageAddressOfPageNumberWraps()
    ensures PageAddress(PageNumber(0x800_0000_0000)) != 0x800_0000_0000
  {
    assert PageNumber(0x800_0000_0000) == -0x8000_0000;
  }

  /** In the shared crate both conversions are on `usize`: going through the
      page number clears exactly the page offset, for every address. */
  lemma PageAddressOfPagerNumber(p: U64)
    ensures PageAddressUsize(PagerNumber(p)) == PageDown(p)
  {
    assert (p / PAGESIZE) * PAGESIZE == p - p % PAGESIZE;
  }

  // ---------------------------------------------------------------- page indices

  /** The shift that brings the index of `level` to the bottom:
      `PAGEOFFBITS + (3 - level) * PAGEINDEXBITS`. */
  function LevelShift(level: nat): nat
    requires level <= 3
  {
    PAGEOFFBITS + (3 - level) * PAGEINDEXBITS
  }

  /** `pageindex(addr, level)`: `(addr >> LevelShift(level)) & 0x1FF`.
      The kernel copy underflows `3 - level` and the shared copy asserts, so
      `level <= 3` is demanded of every caller. The shifts are spelled out as
      the divisors `LevelShifts` names. */
  function PageIndex(addr: U64, level: nat): (r: nat)
    requires level <= 3
    ensures r < NPAGETABLEENTRIES
  {
    if level == 0 then (addr / 0x80_0000_0000) % 512
    else if level == 1 then (addr / 0x4000_0000) % 512
    else if level == 2 then (addr / 0x20_0000) % 512
    else (addr / 0x1000) % 512
  }

  /** `PageIndex` is the shift-and-mask formula of the source. */
  lemma PageIndexFormula(addr: U64, level: nat)
    requires level <= 3
    ensures PageIndex(addr, level) == (addr / Pow2(LevelShift(level))) % NPAGETABLEENTRIES
  {
    LevelShifts();
  }

  /** `l4pageindex(addr)`: the top index; a lower-half (user) address,
      below 2^47, uses the first 256 entries of the top table. */
  function L4PageIndex(addr: U64): (r: nat)
    ensures r < NPAGETABLEENTRIES
    ensures addr < 0x8000_0000_0000 ==> r < 256
  {
    PageIndex(addr, 0)
  }

  /** `l3pageindex(addr)`: the index is the same for the whole 1 GiB region. */
  function L3PageIndex(addr: U64): (r: nat)
    ensures r < NPAGETABLEENTRIES
    ensures addr % 0x4000_0000 + PAGESIZE < 0x4000_0000 ==> r == PageIndex(addr + PAGESIZE, 1)
  {
    PageIndex(addr, 1)
  }

  /** `l2pageindex(addr)`: the index is the same for the whole 2 MiB region. */
  function L2PageIndex(addr: U64): (r: nat)
    ensures r < NPAGETABLEENTRIES
    ensures addr % 0x20_0000 + PAGESIZE < 0x20_0000 ==> r == PageIndex(addr + PAGESIZE, 2)
  {
    PageIndex(addr, 2)
  }

  /** `l1pageindex(addr)`: consecutive pages of a 2 MiB region use
      consecutive entries of the L1 table. */
  function L1PageIndex(addr: U64): (r: nat)
    ensures r < NPAGETABLEENTRIES
    ensures addr % 0x20_0000 + PAGESIZE < 0x20_0000 ==> PageIndex(addr + PAGESIZE, 3) == r + 1
  {
    if addr % 0x20_0000 + PAGESIZE < 0x20_0000 then NextL1Index(addr); PageIndex(addr, 3)
    else PageIndex(addr, 3)
  }

  lemma NextL1Index(addr: U64)
    requires addr % 0x20_0000 + PAGESIZE < 0x20_0000
    ensures addr + PAGESIZE < TWO_64 && PageIndex(addr + PAGESIZE, 3) == PageIndex(addr, 3) + 1
  {
    var y, o := addr / PAGESIZE, addr % PAGESIZE;
    DivDiv(addr, PAGESIZE, 512);
    assert addr % 0x20_0000 == (y % 512) * PAGESIZE + o;
    assert y % 512 < 511;
    DivDiv(addr, 0x20_0000, 0x800_0000_0000);
    assert addr / 0x20_0000 < 0x800_0000_0000;
    assert addr == addr / 0x20_0000 * 0x20_0000 + addr % 0x20_0000;
    MulMono(addr / 0x20_0000, 0x800_0000_0000 - 1, 0x20_0000);
    ModUnique(addr + PAGESIZE, PAGESIZE, y + 1, o);
    ModUnique(y + 1, 512, y / 512, y % 512 + 1);
  }

  lemma LevelShifts()
    ensures Pow2(LevelShift(3)) == 0x1000
    ensures Pow2(LevelShift(2)) == 0x20_0000
    ensures Pow2(LevelShift(1)) == 0x4000_0000
    ensures Pow2(LevelShift(0)) == 0x80_0000_0000
  {
    assert LevelShift(3) == 12 && LevelShift(2) == 21 && LevelShift(1) == 30 && LevelShift(0) == 39;
    assert Pow2(3) == 8;
    Pow2Times(3, 3, 8, 8);
    Pow2Times(6, 3, 64, 8);
    Pow2Times(9, 3, 512, 8);
    Pow2Times(12, 9, 0x1000, 512);
    Pow2Times(21, 9, 0x20_0000, 512);
    Pow2Times(30, 9, 0x4000_0000, 512);
  }

  lemma Pow2Times(a: nat, b: nat, x: nat, y: nat)
    requires Pow2(a) == x && Pow2(b) == y
    ensures Pow2(a + b) == x * y
  {
    Pow2Add(a, b);
  }

  lemma {:induction false} Pow2Add(a: nat, b: nat)
    ensures Pow2(a + b) == Pow2(a) * Pow2(b)
  {
    if b > 0 {
      Pow2Add(a, b - 1);
    }
  }

  /** Quotient and remainder are the only such pair. */
  lemma ModUnique(x: nat, n: nat, q: nat, r: nat)
    requires n > 0 && r < n && x == q * n + r
    ensures x % n == r && x / n == q
  {
    var q0 := x / n;
    var r0 := x % n;
    assert q0 * n + r0 == q * n + r;
    if q0 > q {
      MulMono(q + 1, q0, n);
      assert false;
    } else if q0 < q {
      MulMono(q0 + 1, q, n);
      assert false;
    }
  }

  lemma MulMono(a: nat, b: nat, n: nat)
    requires a <= b
    ensures a * n <= b * n
  {
    assert b * n == a * n + (b - a) * n;
  }

  /** The four level indices and the page offset are the digits of the low
      48 bits of an address, most significant level first. */
  lemma {:induction false} AddressDecomposition(addr: U64)
    ensures addr % 0x1_0000_0000_0000
         == L4PageIndex(addr) * 0x80_0000_0000 + L3PageIndex(addr) * 0x4000_0000
          + L2PageIndex(addr) * 0x20_0000 + L1PageIndex(addr) * 0x1000 + PageOffset(addr)
  {
    LevelShifts();
    DivDiv(addr, 0x1000, 512);
    DivDiv(addr, 0x20_0000, 512);
    DivDiv(addr, 0x4000_0000, 512);
    DivDiv(addr, 0x80_0000_0000, 512);
    assert addr / 0x1000 % 512 == L1PageIndex(addr);
  }

  /** The indices of levels 0 to 2 depend only on `addr >> 21`, the key that
      `virtual_memory_map` uses to decide whether to walk again. */
  lemma UpperIndicesBy2M(a: U64, b: U64, level: nat)
    requires level <= 2
    requires a / 0x20_0000 == b / 0x20_0000
    ensures PageIndex(a, level) == PageIndex(b, level)
  {
    LevelShifts();
    var s := Pow2(LevelShift(level));
    var k := s / 0x20_0000;
    assert s == 0x20_0000 * k;
    DivDiv(a, 0x20_0000, k);
    DivDiv(b, 0x20_0000, k);
  }

  /** Dividing by `a * b` is dividing by `a`, then by `b`; the remainder
      keeps the digit of `x / a` below `b` above the remainder by `a`. */
  lemma DivDiv(x: nat, a: nat, b: nat)
    requires a > 0 && b > 0
    ensures x / (a * b) == (x / a) / b
    ensures x % (a * b) == (x / a) % b * a + x % a
  {
    var y, ra := x / a, x % a;
    var q, r := y / b, y % b;
    DivModParts(x, a);
    DivModParts(y, b);
    DistributeDigits(y, q, r, a, b);
    DigitBelow(r, ra, a, b);
    ModUnique(x, a * b, q, r * a + ra);
  }

  lemma DivModParts(x: nat, n: nat)
    requires n > 0
    ensures x == x / n * n + x % n && x % n < n
  {
  }

  lemma DistributeDigits(y: nat, q: nat, r: nat, a: nat, b: nat)
    requires y == q * b + r
    ensures y * a == q * (a * b) + r * a
  {
    assert (q * b + r) * a == q * b * a + r * a;
    assert q * b * a == q * (a * b);
  }

  lemma DigitBelow(r: nat, ra: nat, a: nat, b: nat)
    requires r < b && ra < a
    ensures r * a + ra < a * b
  {
    MulMono(r, b - 1, a);
    assert (b - 1) * a == a * b - a;
  }

  // ---------------------------------------------------------------- page table entries

  /** `pte_addr(e)`: `e & !0xFFF`, the page-aligned address of the page
      that holds `e`. */
  function PteAddr(e: U64): (r: U64)
    ensures r % PAGESIZE == 0 && r <= e < r + PAGESIZE
  {
    PageDown(e)
  }

  /** `pte_flags(e)`: `e & 0xFFF`, the flag bits that `pte_addr` clears:
      below 0x1000, and adding (OR-ing) them back gives the entry. */
  function PteFlags(e: U64): (r: nat)
    ensures r < 0x1000 && PteAddr(e) + r == e
  {
    e % PAGESIZE
  }

  /** An entry made of a page-aligned address and a flag word: `addr | flags`. */
  function MakePte(addr: U64, flags: nat): (e: U64)
    requires addr % PAGESIZE == 0 && flags < PAGESIZE
  {
    assert addr <= TWO_64 - PAGESIZE;
    addr + flags
  }

  /** Decoding an entry built from an address and flags gives both back. */
  lemma PteRoundTrip(addr: U64, flags: nat)
    requires addr % PAGESIZE == 0 && flags < PAGESIZE
    ensures PteAddr(MakePte(addr, flags)) == addr
    ensures PteFlags(MakePte(addr, flags)) == flags
  {
    ModUnique(addr + flags, PAGESIZE, addr / PAGESIZE, flags);
  }

  const PTE_P: nat := 1
  const PTE_W: nat := 2
  const PTE_U: nat := 4
  const PTE_A: nat := 32
  const PTE_D: nat := 64
  const PTE_PS: nat := 128
  const PTE_PWU: nat := 7

  const PFERR_PRESENT: nat := 0x1
  const PFERR_WRITE: nat := 0x2
  const PFERR_USER: nat := 0x4

  /** `(e & f) != 0` for a single-bit flag `f`. */
  predicate HasFlag(e: int, f: nat)
    requires f > 0
  {
    (e / f) % 2 == 1
  }

  /** `(e & PTE_P) != 0`. */
  predicate IsPresent(e: int)
  {
    e % 2 == 1
  }

  /** `(e & PTE_W) != 0`. */
  predicate IsWritable(e: int)
  {
    (e / 2) % 2 == 1
  }

  /** `(e & PTE_U) != 0`; also the test of `PFERR_USER` in a page-fault error code. */
  predicate IsUser(e: int)
  {
    (e / 4) % 2 == 1
  }

  /** The three tests are the flag tests for P, W and U. */
  lemma FlagTests(e: int)
    ensures IsPresent(e) == HasFlag(e, PTE_P)
    ensures IsWritable(e) == HasFlag(e, PTE_W)
    ensures IsUser(e) == HasFlag(e, PTE_U) == HasFlag(e, PFERR_USER)
  {
  }

  /** The six entry flags are distinct single bits inside the 0xFFF flag mask,
      and the three page-fault error bits are the bits 1, 2 and 4. */
  lemma FlagBits()
    ensures PTE_P == Pow2(0) && PTE_W == Pow2(1) && PTE_U == Pow2(2)
    ensures PTE_A == Pow2(5) && PTE_D == Pow2(6) && PTE_PS == Pow2(7)
    ensures PTE_PS < PTE_FLAGS_MASK
    ensures PTE_P + PTE_W + PTE_U == PTE_PWU
    ensures PFERR_PRESENT == Pow2(0) && PFERR_WRITE == Pow2(1) && PFERR_USER == Pow2(2)
  {
  }

  /** The flag word of an entry carries the entry's flag bits. */
  lemma FlagsOfPteFlags(e: U64)
    ensures IsPresent(PteFlags(e)) == IsPresent(e)
    ensures IsWritable(PteFlags(e)) == IsWritable(e)
    ensures IsUser(PteFlags(e)) == IsUser(e)
  {
    var q := e / PAGESIZE;
    var r := e % PAGESIZE;
    assert e == PAGESIZE * q + r;
    assert e / 2 == 2048 * q + r / 2;
    assert e / 4 == 1024 * q + r / 4;
  }

  /** The flag bits of an entry do not change its page number. */
  lemma PageNumberOfPteAddr(e: U64)
    ensures PageNumber(PteAddr(e)) == PageNumber(e)
  {
    assert PteAddr(e) / PAGESIZE == e / PAGESIZE;
  }

  // ---------------------------------------------------------------- lookup result

  /** `vamapping`: what `virtual_memory_lookup` reports for one address. */
  datatype VAMapping = VAMapping(pn: int, pa: U64, perm: int)

  /** `VAMapping::default()`: page number -1, address all ones, no permission. */
  const UNMAPPED: VAMapping := VAMapping(-1, TWO_64 - 1, 0)

  // ---------------------------------------------------------------- trap numbers

  const INT_DIVIDE: nat := 0x0
  const INT_GPF: nat := 0xd
  const INT_PAGEFAULT: nat := 0xe

  const INT_SYS: nat := 48
  const INT_SYS_PANIC: nat := 48
  const INT_SYS_GETPID: nat := 49
  const INT_SYS_YIELD: nat := 50
  const INT_SYS_PAGE_ALLOC: nat := 51
  const INT_SYS_FORK: nat := 52
  const INT_SYS_EXIT: nat := 53
  const INT_SYS_MAPPING: nat := 54
  const INT_SYS_MEM_TOG: nat := 56
  const INT_SYS_BRK: nat := 57
  const INT_SYS_SBRK: nat := 58

  /** The system-call vectors are `INT_SYS + k`, as the shared crate spells them. */
  lemma SyscallVectors()
    ensures INT_SYS_PANIC == INT_SYS + 0 && INT_SYS_GETPID == INT_SYS + 1
    ensures INT_SYS_YIELD == INT_SYS + 2 && INT_SYS_PAGE_ALLOC == INT_SYS + 3
    ensures INT_SYS_FORK == INT_SYS + 4 && INT_SYS_EXIT == INT_SYS + 5
    ensures INT_SYS_MAPPING == INT_SYS + 6 && INT_SYS_MEM_TOG == INT_SYS + 8
    ensures INT_SYS_BRK == INT_SYS + 9 && INT_SYS_SBRK == INT_SYS + 10
  {
  }

  /** `cpos!(row, col)`: the console cell index `row * 80 + col`. */
  function Cpos(row: nat, col: nat): (r: nat)
    ensures row < 25 && col < 80 ==> r < 25 * 80
    ensures col < 80 ==> r / 80 == row && r % 80 == col
  {
    if col < 80 then ModUnique(row * 80 + col, 80, row, col); row * 80 + col
    else row * 80 + col
  }

}
