/** The host tool that builds the boot disk (`mkbootdisk.rs`): a boot
    sector made of a boot block and the signature bytes 0x55 0xAA, then every
    further file padded to whole 512-byte sectors, `@N` arguments that skip
    ahead to sector N, and a final pad to 1024 sectors.  With `-p DISK` the
    sectors are instead written into the first partition of type 0x27 found by
    scanning the partition tables of DISK, as section 5.2.1 "Legacy Master
    Boot Record" of the UEFI Specification lays them out.  Files and the disk
    are byte sequences; a run that would end in `usage()` is `None`. */
module BootDisk {
  import opened Wrappers
  import opened X86
  import Elf
  import Text

  const SECTORSIZE: nat := 512
  /** Bytes of a boot block that fit before the signature. */
  const BOOT_BLOCK_MAX: nat := 510
  /** The disk is padded to at least this many sectors. */
  const MIN_SECTORS: nat := 1024
  const ULONG_MAX: nat := TWO_64 - 1

  function Zeros(n: nat): (z: seq<Byte>)
    ensures |z| == n
    ensures forall i | 0 <= i < n :: z[i] == 0
  {
    seq(n, _ => 0)
  }

  // ---------------------------------------------------------------- writing

  /** `diskwrite`: appends `data` to what has been written so far, unless a
      partition limit is set and the end would pass it. */
  function DiskWrite(maxoff: nat, out: seq<Byte>, data: seq<Byte>): (r: Option<seq<Byte>>)
    ensures r.Some? <==> (maxoff == 0 || |out| + |data| <= maxoff)
    ensures r.Some? ==> |r.value| == |out| + |data| && r.value[..|out|] == out && r.value[|out|..] == data
  {
    if maxoff != 0 && |out| + |data| > maxoff then None else Some(out + data)
  }

  /** The bytes written so far and the sector counter `nsectors`. */
  datatype Image = Image(out: seq<Byte>, nsectors: nat)
  {
    /** Every write so far has been a whole number of sectors. */
    predicate Whole()
    {
      |out| == SECTORSIZE * nsectors
    }
  }

  /** One command-line argument: its text and the contents of the file of
      that name, `None` when it cannot be opened. */
  datatype Input = Input(text: string, contents: Option<seq<Byte>>)

  // ---------------------------------------------------------------- the boot sector

  /** The first sector: the boot block, zeros up to byte 510, then 0x55 0xAA.
      `fread` takes at most 4096 bytes, and more than 510 of them is an error. */
  function BootSector(block: seq<Byte>): (r: Option<seq<Byte>>)
    ensures r.Some? <==> |block| <= BOOT_BLOCK_MAX
    ensures r.Some? ==> |r.value| == SECTORSIZE && r.value[..|block|] == block
    ensures r.Some? ==> forall i | |block| <= i < BOOT_BLOCK_MAX :: r.value[i] == 0
    ensures r.Some? ==> r.value[510] == 0x55 && r.value[511] == 0xAA
  {
    var n := if |block| < 4096 then |block| else 4096;
    if n > BOOT_BLOCK_MAX then None
    else Some(block + Zeros(BOOT_BLOCK_MAX - n) + [0x55, 0xAA])
  }

  // ---------------------------------------------------------------- "@N" arguments

  /** The value of a digit character, 99 for anything else. */
  function DigitOf(c: char): (d: nat)
    ensures d < 16 || d == 99
  {
    if '0' <= c <= '9' then c as nat - '0' as nat
    else if 'a' <= c <= 'f' then c as nat - 'a' as nat + 10
    else if 'A' <= c <= 'F' then c as nat - 'A' as nat + 10
    else 99
  }

  predicate AllDigits(s: string, base: nat)
  {
    forall i | 0 <= i < |s| :: DigitOf(s[i]) < base
  }

  /** The value of a numeral, most significant digit first. */
  function Numeral(s: string, base: nat): nat
    requires AllDigits(s, base)
  {
    if |s| == 0 then 0 else Numeral(s[..|s| - 1], base) * base + DigitOf(s[|s| - 1])
  }

  /** `strtoul(s, &end, 0)` for a string `s` that starts with a digit, when
      `end` reaches the end of `s`: "0x" selects hexadecimal, a leading "0"
      octal, anything else decimal; a value past `ULONG_MAX` saturates. */
  function WholeNumber(s: string): (r: Option<nat>)
    requires |s| > 0 && '0' <= s[0] <= '9'
    ensures r.Some? ==> r.value <= ULONG_MAX
  {
    var digits := if |s| >= 2 && s[0] == '0' && (s[1] == 'x' || s[1] == 'X') then s[2..] else s;
    var base := if |s| >= 2 && s[0] == '0' && (s[1] == 'x' || s[1] == 'X') then 16
                else if s[0] == '0' then 8 else 10;
    if |digits| == 0 || !AllDigits(digits, base) then None
    else
      var v := Numeral(digits, base);
      Some(if v > ULONG_MAX then ULONG_MAX else v)
  }

  /** The sector an argument asks to skip to: '@', a digit, and a whole
      number after the '@'. */
  function SkipTarget(text: string): Option<nat>
  {
    if |text| >= 2 && text[0] == '@' && '0' <= text[1] <= '9' then WholeNumber(text[1..]) else None
  }

  // ---------------------------------------------------------------- the argument loop

  /** A file argument: its bytes, then zeros to the next sector boundary. */
  function EmitFile(maxoff: nat, img: Image, bytes: seq<Byte>): (r: Option<Image>)
    ensures r.Some? && img.Whole() ==> r.value.Whole() && r.value.nsectors >= img.nsectors
    ensures r.Some? ==> |img.out| <= |r.value.out| && r.value.out[..|img.out|] == img.out
    ensures r.Some? && maxoff != 0 ==> |r.value.out| <= maxoff
  {
    match DiskWrite(maxoff, img.out, bytes)
    case None => None
    case Some(out1) =>
      var rest := |bytes| % SECTORSIZE;
      DivModParts(|bytes|, SECTORSIZE);
      if rest == 0 then Some(Image(out1, img.nsectors + |bytes| / SECTORSIZE))
      else
        match DiskWrite(maxoff, out1, Zeros(SECTORSIZE - rest))
        case None => None
        case Some(out2) =>
          ModUnique(|bytes| + SECTORSIZE - rest, SECTORSIZE, |bytes| / SECTORSIZE + 1, 0);
          PrefixOfPrefix(img.out, out1, out2);
          Some(Image(out2, img.nsectors + (|bytes| + SECTORSIZE - rest) / SECTORSIZE))
  }

  /** A skip argument: zero sectors until the count reaches `target`; a
      target below the count is an error. */
  function EmitSkip(maxoff: nat, img: Image, target: nat): (r: Option<Image>)
    ensures r.Some? && img.Whole() ==> r.value.Whole() && r.value.nsectors >= img.nsectors
    ensures r.Some? ==> |img.out| <= |r.value.out| && r.value.out[..|img.out|] == img.out
    ensures r.Some? && maxoff != 0 ==> |r.value.out| <= maxoff
  {
    if img.nsectors > target then None
    else
      match DiskWrite(maxoff, img.out, Zeros(SECTORSIZE * (target - img.nsectors)))
      case None => None
      case Some(out1) => Some(Image(out1, target))
  }

  /** One argument after the boot block: a skip if it reads as "@N", a file
      otherwise; a file that cannot be read is an error. */
  function EmitArg(maxoff: nat, img: Image, arg: Input): (r: Option<Image>)
    ensures r.Some? && img.Whole() ==> r.value.Whole() && r.value.nsectors >= img.nsectors
    ensures r.Some? ==> |img.out| <= |r.value.out| && r.value.out[..|img.out|] == img.out
    ensures r.Some? && maxoff != 0 ==> |r.value.out| <= maxoff
  {
    match SkipTarget(arg.text)
    case Some(target) => EmitSkip(maxoff, img, target)
    case None =>
      match arg.contents
      case None => None
      case Some(bytes) => EmitFile(maxoff, img, bytes)
  }

  /** The loop over the arguments after the boot block, in order. */
  function Emit(maxoff: nat, img: Image, args: seq<Input>): (r: Option<Image>)
    ensures r.Some? && img.Whole() ==> r.value.Whole() && r.value.nsectors >= img.nsectors
    ensures r.Some? ==> |img.out| <= |r.value.out| && r.value.out[..|img.out|] == img.out
    ensures r.Some? && maxoff != 0 && |r.value.out| > |img.out| ==> |r.value.out| <= maxoff
    decreases |args|
  {
    if |args| == 0 then Some(img)
    else
      match EmitArg(maxoff, img, args[0])
      case None => None
      case Some(img1) =>
        var r := Emit(maxoff, img1, args[1..]);
        if r.Some? then PrefixOfPrefix(img.out, img1.out, r.value.out); r else r
  }

  /** The final loop: zero sectors until there are at least 1024. */
  function PadDisk(maxoff: nat, img: Image): (r: Option<Image>)
    ensures r.Some? && img.Whole() ==> r.value.Whole() && r.value.nsectors >= MIN_SECTORS
    ensures r.Some? ==> |img.out| <= |r.value.out| && r.value.out[..|img.out|] == img.out
    ensures r.Some? && maxoff != 0 && |r.value.out| > |img.out| ==> |r.value.out| <= maxoff
  {
    if img.nsectors >= MIN_SECTORS then Some(img)
    else
      match DiskWrite(maxoff, img.out, Zeros(SECTORSIZE * (MIN_SECTORS - img.nsectors)))
      case None => None
      case Some(out1) => Some(Image(out1, MIN_SECTORS))
  }

  /** The bytes written after `img`: the arguments, then the final pad. */
  function Payload(maxoff: nat, img: Image, args: seq<Input>): (r: Option<seq<Byte>>)
    requires img.Whole()
    ensures r.Some? ==> |r.value| % SECTORSIZE == 0 && |r.value| >= SECTORSIZE * MIN_SECTORS
    ensures r.Some? ==> |img.out| <= |r.value| && r.value[..|img.out|] == img.out
    ensures r.Some? && maxoff != 0 && |r.value| > |img.out| ==> |r.value| <= maxoff
  {
    match Emit(maxoff, img, args)
    case None => None
    case Some(img1) =>
      match PadDisk(maxoff, img1)
      case None => None
      case Some(img2) =>
        PrefixOfPrefix(img.out, img1.out, img2.out);
        Some(img2.out)
  }

  /** A prefix of a prefix is a prefix. */
  lemma PrefixOfPrefix(a: seq<Byte>, b: seq<Byte>, c: seq<Byte>)
    requires |a| <= |b| <= |c| && c[..|b|] == b && b[..|a|] == a
    ensures c[..|a|] == a
  {
    assert c[..|a|] == c[..|b|][..|a|];
  }

  /** `mkbootdisk BOOT FILE...`: the disk image written to standard output;
      it needs a readable boot block, and it is whole sectors, at least
      1024 of them. */
  function MakeBootDisk(args: seq<Input>): (r: Option<seq<Byte>>)
    ensures r.Some? ==> |args| > 0 && args[0].contents.Some?
    ensures r.Some? ==> |r.value| % SECTORSIZE == 0 && |r.value| >= SECTORSIZE * MIN_SECTORS
  {
    if |args| == 0 then None
    else
      match args[0].contents
      case None => None
      case Some(block) =>
        match BootSector(block)
        case None => None
        case Some(sector) => Payload(0, Image(sector, 1), args[1..])
  }

  // ---------------------------------------------------------------- partition tables

  /** One 16-byte partition record. */
  datatype Partition = Partition(kind: Byte, lbaStart: U32, lbaLength: U32)

  const PTABLE_OFFSET: nat := 446

  /** Record `i` of a table sector; `type` is byte 4, the start and length
      are the little-endian words at bytes 8 and 12. */
  function RecordAt(sector: seq<Byte>, i: nat): (p: Partition)
    requires |sector| == SECTORSIZE && i < 4
  {
    var base := PTABLE_OFFSET + 16 * i;
    Elf.Pow256Values();
    Partition(sector[base + 4], Elf.Field(sector, base + 8, 4), Elf.Field(sector, base + 12, 4))
  }

  predicate Signed(sector: seq<Byte>)
    requires |sector| == SECTORSIZE
  {
    sector[510] == 0x55 && sector[511] == 0xAA
  }

  predicate IsExtended(kind: Byte)
  {
    kind == 0x05 || kind == 0x0F || kind == 0x85
  }

  /** A record the scan passes over: empty, or neither the JOS type 0x27 nor
      an extended partition. */
  predicate Inert(p: Partition)
  {
    p.lbaLength == 0 || (p.kind != 0x27 && !IsExtended(p.kind))
  }

  /** `readsect`: sector `sect`, taken as an unsigned 32-bit number; a short
      read is an error. */
  function ReadSector(disk: seq<Byte>, sect: nat): (r: Option<seq<Byte>>)
    ensures r.Some? ==> |r.value| == SECTORSIZE
  {
    var at := (sect % TWO_32) * SECTORSIZE;
    if at + SECTORSIZE > |disk| then None else Some(disk[at..at + SECTORSIZE])
  }

  /** What the scan ends with: a read error (the run stops), no partition,
      the selected partition's first sector and byte limit, or a chain of
      extended partitions deeper than the fuel allows. */
  datatype Scan = ReadFailed | NotFound | Found(start: nat, maxoff: nat) | OutOfFuel

  /** `find_partition(partition_sect, extended_sect, _)`. */
  function FindPartition(disk: seq<Byte>, sect: nat, extended: nat, fuel: nat): (r: Scan)
    ensures r.Found? ==> r.maxoff > 0 && r.maxoff % SECTORSIZE == 0
    ensures ReadSector(disk, sect).Some? && !Signed(ReadSector(disk, sect).value) ==> r == NotFound
    decreases fuel, 5
  {
    match ReadSector(disk, sect)
    case None => ReadFailed
    case Some(sector) =>
      if !Signed(sector) then NotFound
      else ScanRecords(disk, sector, sect, extended, 0, fuel)
  }

  /** The loop over records `i..3` of one table. */
  function ScanRecords(disk: seq<Byte>, sector: seq<Byte>, sect: nat, extended: nat, i: nat, fuel: nat): (r: Scan)
    requires |sector| == SECTORSIZE && i <= 4
    ensures r.Found? ==> r.maxoff > 0 && r.maxoff % SECTORSIZE == 0
    decreases fuel, 4 - i
  {
    if i == 4 then NotFound
    else
      var p := RecordAt(sector, i);
      if p.lbaLength == 0 then ScanRecords(disk, sector, sect, extended, i + 1, fuel)
      else if p.kind == 0x27 then Found(sect + p.lbaStart, p.lbaLength * SECTORSIZE)
      else if IsExtended(p.kind) then
        if fuel == 0 then OutOfFuel
        else
          var inner := if extended == 0 then p.lbaStart else extended;
          var r := FindPartition(disk, p.lbaStart + extended, inner, fuel - 1);
          if r == NotFound then ScanRecords(disk, sector, sect, extended, i + 1, fuel) else r
      else ScanRecords(disk, sector, sect, extended, i + 1, fuel)
  }

  /** `data` written into `disk` from byte `at`; a write past the end extends
      the disk, with zeros in any gap. */
  function Overwrite(disk: seq<Byte>, at: nat, data: seq<Byte>): (r: seq<Byte>)
    ensures |r| == if |disk| < at + |data| then at + |data| else |disk|
    ensures forall k | 0 <= k < |data| :: r[at + k] == data[k]
    ensures forall i | 0 <= i < |r| && !(at <= i < at + |data|) :: r[i] == (if i < |disk| then disk[i] else 0)
  {
    var n := if |disk| < at + |data| then at + |data| else |disk|;
    seq(n, i requires 0 <= i < n =>
      if at <= i < at + |data| then data[i - at] else if i < |disk| then disk[i] else 0)
  }

  /** `mkbootdisk -p DISK FILE...`: the disk after the files have been
      written into its first type-0x27 partition; the disk never shrinks
      and everything before that partition is kept. */
  function MakePartitionDisk(disk: seq<Byte>, args: seq<Input>, fuel: nat): (r: Option<seq<Byte>>)
    ensures r.Some? ==> |args| > 0 && FindPartition(disk, 0, 0, fuel).Found?
    ensures r.Some? ==> |disk| <= |r.value|
    ensures r.Some? ==>
      forall i | 0 <= i < FindPartition(disk, 0, 0, fuel).start * SECTORSIZE && i < |disk| :: r.value[i] == disk[i]
  {
    match FindPartition(disk, 0, 0, fuel)
    case Found(start, maxoff) =>
      if |args| == 0 then None
      else (
        match Payload(maxoff, Image([], 0), args)
        case None => None
        case Some(bytes) => Some(Overwrite(disk, start * SECTORSIZE, bytes)))
    case _ => None
  }

  // ---------------------------------------------------------------- properties

  /** The disk written to standard output starts with the boot sector: the
      block, zeros, and the signature; it is whole sectors, at least 1024 of
      them.  A boot block over 510 bytes stops the run. */
  lemma MakeBootDiskLayout(args: seq<Input>)
    requires |args| > 0 && args[0].contents.Some?
    ensures |args[0].contents.value| > BOOT_BLOCK_MAX ==> MakeBootDisk(args) == None
    ensures MakeBootDisk(args).Some? ==>
      var block, d := args[0].contents.value, MakeBootDisk(args).value;
      && |block| <= BOOT_BLOCK_MAX
      && |d| % SECTORSIZE == 0 && |d| >= SECTORSIZE * MIN_SECTORS
      && d[..|block|] == block
      && (forall i | |block| <= i < BOOT_BLOCK_MAX :: d[i] == 0)
      && d[510] == 0x55 && d[511] == 0xAA
  {
    var block := args[0].contents.value;
    if MakeBootDisk(args).Some? {
      var sector := BootSector(block).value;
      var d := MakeBootDisk(args).value;
      assert d[..SECTORSIZE] == sector;
      assert d[..|block|] == sector[..|block|];
      forall i | |block| <= i < BOOT_BLOCK_MAX
        ensures d[i] == 0
      {
        assert d[i] == sector[i];
      }
      assert d[510] == sector[510] && d[511] == sector[511];
    }
  }

  /** A file argument adds its bytes and then the zeros that complete its
      last sector; the count grows by the padded length over 512. */
  lemma FilePlacement(img: Image, text: string, bytes: seq<Byte>)
    requires SkipTarget(text) == None
    ensures
      var pad := (SECTORSIZE - |bytes| % SECTORSIZE) % SECTORSIZE;
      && (|bytes| + pad) % SECTORSIZE == 0
      && Emit(0, img, [Input(text, Some(bytes))])
         == Some(Image(img.out + bytes + Zeros(pad), img.nsectors + (|bytes| + pad) / SECTORSIZE))
  {
    EmitSingle(0, img, Input(text, Some(bytes)));
    FilePadding(img, bytes);
  }

  /** With no size limit a file is followed by the zeros that complete its
      last sector. */
  lemma FilePadding(img: Image, bytes: seq<Byte>)
    ensures
      var pad := (SECTORSIZE - |bytes| % SECTORSIZE) % SECTORSIZE;
      && (|bytes| + pad) % SECTORSIZE == 0
      && EmitFile(0, img, bytes)
         == Some(Image(img.out + bytes + Zeros(pad), img.nsectors + (|bytes| + pad) / SECTORSIZE))
  {
    var pad := (SECTORSIZE - |bytes| % SECTORSIZE) % SECTORSIZE;
    if |bytes| % SECTORSIZE == 0 {
      assert Zeros(pad) == [];
      assert img.out + bytes + Zeros(pad) == img.out + bytes;
    }
  }

  /** A run of one argument is that argument's step. */
  lemma EmitSingle(maxoff: nat, img: Image, arg: Input)
    ensures Emit(maxoff, img, [arg]) == EmitArg(maxoff, img, arg)
  {
    assert [arg][1..] == [];
  }

  /** "@N" below the sector count stops the run; otherwise zero sectors are
      added until the count is N. */
  lemma SkipPlacement(img: Image, text: string, target: nat)
    requires SkipTarget(text) == Some(target)
    ensures target < img.nsectors ==> Emit(0, img, [Input(text, None)]) == None
    ensures target >= img.nsectors ==>
      Emit(0, img, [Input(text, None)])
        == Some(Image(img.out + Zeros(SECTORSIZE * (target - img.nsectors)), target))
  {
    EmitSingle(0, img, Input(text, None));
  }

  /** The records before `i` neither select nor lead anywhere, so the scan
      from any of them reaches record `i` unchanged. */
  lemma {:induction false} ScanPassesInert(disk: seq<Byte>, sector: seq<Byte>, sect: nat, extended: nat, j: nat, i: nat, fuel: nat)
    requires |sector| == SECTORSIZE && j <= i < 4
    requires forall k | j <= k < i :: Inert(RecordAt(sector, k))
    ensures ScanRecords(disk, sector, sect, extended, j, fuel) == ScanRecords(disk, sector, sect, extended, i, fuel)
    decreases i - j
  {
    if j < i {
      ScanPassesInert(disk, sector, sect, extended, j + 1, i, fuel);
    }
  }

  /** With the signature present, the first record that is not empty and is
      of type 0x27 is selected when every record before it is empty or of
      another, non-extended type: its start is counted from the table's own
      sector and its length in sectors becomes the byte limit. */
  lemma FirstPartitionSelected(disk: seq<Byte>, sect: nat, extended: nat, fuel: nat, i: nat)
    requires ReadSector(disk, sect).Some? && Signed(ReadSector(disk, sect).value) && i < 4
    requires
      var sector := ReadSector(disk, sect).value;
      && RecordAt(sector, i).lbaLength != 0 && RecordAt(sector, i).kind == 0x27
      && forall k | 0 <= k < i :: Inert(RecordAt(sector, k))
    ensures
      var p := RecordAt(ReadSector(disk, sect).value, i);
      FindPartition(disk, sect, extended, fuel) == Found(sect + p.lbaStart, p.lbaLength * SECTORSIZE)
  {
    ScanPassesInert(disk, ReadSector(disk, sect).value, sect, extended, 0, i, fuel);
  }

  /** An extended-partition record before which every record is inert sends
      the scan, depth first, into the table at its start (counted from the
      outermost extended partition); whatever that finds other than nothing
      is the answer. */
  lemma ExtendedFollowed(disk: seq<Byte>, sect: nat, extended: nat, fuel: nat, i: nat)
    requires ReadSector(disk, sect).Some? && Signed(ReadSector(disk, sect).value) && i < 4
    requires
      var sector := ReadSector(disk, sect).value;
      && RecordAt(sector, i).lbaLength != 0 && IsExtended(RecordAt(sector, i).kind)
      && forall k | 0 <= k < i :: Inert(RecordAt(sector, k))
    requires fuel > 0
    ensures
      var p := RecordAt(ReadSector(disk, sect).value, i);
      var inner := if extended == 0 then p.lbaStart else extended;
      var sub := FindPartition(disk, p.lbaStart + extended, inner, fuel - 1);
      sub != NotFound ==> FindPartition(disk, sect, extended, fuel) == sub
  {
    ScanPassesInert(disk, ReadSector(disk, sect).value, sect, extended, 0, i, fuel);
  }

  lemma {:induction false} ZeroValue(b: seq<Byte>)
    requires forall k | 0 <= k < |b| :: b[k] == 0
    ensures Elf.LeValue(b) == 0
  {
    if |b| > 0 {
      ZeroValue(b[1..]);
    }
  }

  /** A table sector whose records are all zero selects nothing. */
  lemma {:induction false} EmptyTableNotFound(disk: seq<Byte>, sector: seq<Byte>, sect: nat, extended: nat, i: nat, fuel: nat)
    requires |sector| == SECTORSIZE && i <= 4
    requires forall k | PTABLE_OFFSET <= k < PTABLE_OFFSET + 64 :: sector[k] == 0
    ensures ScanRecords(disk, sector, sect, extended, i, fuel) == NotFound
    decreases 4 - i
  {
    if i < 4 {
      var base := PTABLE_OFFSET + 16 * i;
      var w := Elf.Window(sector, base + 12, 4);
      forall k | 0 <= k < 4
        ensures w[k] == 0
      {
        assert w[k] == sector[base + 12 + k];
      }
      ZeroValue(w);
      EmptyTableNotFound(disk, sector, sect, extended, i + 1, fuel);
    }
  }

  /** A disk made from a boot block of at most 446 bytes has an empty
      partition table, so `-p` on it finds no partition. */
  lemma OwnDiskHasNoPartition(args: seq<Input>, fuel: nat)
    requires MakeBootDisk(args).Some?
    requires |args[0].contents.value| <= PTABLE_OFFSET
    ensures FindPartition(MakeBootDisk(args).value, 0, 0, fuel) == NotFound
    ensures MakePartitionDisk(MakeBootDisk(args).value, args, fuel) == None
  {
    var d := MakeBootDisk(args).value;
    MakeBootDiskLayout(args);
    var sector := ReadSector(d, 0).value;
    assert sector == d[..SECTORSIZE];
    forall k | PTABLE_OFFSET <= k < PTABLE_OFFSET + 64
      ensures sector[k] == 0
    {
      assert sector[k] == d[k];
    }
    EmptyTableNotFound(d, sector, 0, 0, 0, fuel);
  }

  /** `-p`: the files land at the partition's first byte, padded to whole
      sectors and at least 1024 of them, never past the partition's length;
      every other byte of the disk is kept. */
  lemma PartitionWrite(disk: seq<Byte>, args: seq<Input>, fuel: nat)
    requires MakePartitionDisk(disk, args, fuel).Some?
    ensures FindPartition(disk, 0, 0, fuel).Found?
    ensures Payload(FindPartition(disk, 0, 0, fuel).maxoff, Image([], 0), args).Some?
    ensures
      var f := FindPartition(disk, 0, 0, fuel);
      var d := MakePartitionDisk(disk, args, fuel).value;
      var bytes := Payload(f.maxoff, Image([], 0), args).value;
      && SECTORSIZE * MIN_SECTORS <= |bytes| <= f.maxoff && |bytes| % SECTORSIZE == 0
      && |d| >= f.start * SECTORSIZE + |bytes|
      && (forall k | 0 <= k < |bytes| :: d[f.start * SECTORSIZE + k] == bytes[k])
      && (forall i | 0 <= i < |disk| && !(f.start * SECTORSIZE <= i < f.start * SECTORSIZE + |bytes|) :: d[i] == disk[i])
  {
    PartitionDiskIs(disk, args, fuel);
    var f := FindPartition(disk, 0, 0, fuel);
    var bytes := Payload(f.maxoff, Image([], 0), args).value;
    PartitionPayload(f.maxoff, args);
    OverwriteKeeps(disk, f.start * SECTORSIZE, bytes);
  }

  /** A disk `-p` succeeds on is the payload written over the partition. */
  lemma PartitionDiskIs(disk: seq<Byte>, args: seq<Input>, fuel: nat)
    requires MakePartitionDisk(disk, args, fuel).Some?
    ensures FindPartition(disk, 0, 0, fuel).Found?
    ensures Payload(FindPartition(disk, 0, 0, fuel).maxoff, Image([], 0), args).Some?
    ensures var f := FindPartition(disk, 0, 0, fuel);
      MakePartitionDisk(disk, args, fuel).value
        == Overwrite(disk, f.start * SECTORSIZE, Payload(f.maxoff, Image([], 0), args).value)
  {
  }

  /** The payload for a partition fills whole sectors, at least 1024 of them,
      and fits in the partition. */
  lemma PartitionPayload(maxoff: nat, args: seq<Input>)
    requires maxoff > 0 && Payload(maxoff, Image([], 0), args).Some?
    ensures var bytes := Payload(maxoff, Image([], 0), args).value;
      SECTORSIZE * MIN_SECTORS <= |bytes| <= maxoff && |bytes| % SECTORSIZE == 0
  {
  }

  /** Overwriting keeps every byte of the disk outside the written range. */
  lemma OverwriteKeeps(disk: seq<Byte>, at: nat, data: seq<Byte>)
    ensures forall i | 0 <= i < |disk| && !(at <= i < at + |data|) :: Overwrite(disk, at, data)[i] == disk[i]
  {
  }

  // ---------------------------------------------------------------- "@N" and numerals

  function Chars(b: seq<Byte>): (s: string)
    ensures |s| == |b|
  {
    seq(|b|, i requires 0 <= i < |b| => b[i] as char)
  }

  lemma {:induction false} DecimalNumeral(n: nat)
    ensures AllDigits(Chars(Text.Decimal(n)), 10)
    ensures Numeral(Chars(Text.Decimal(n)), 10) == n
  {
    var s := Chars(Text.Decimal(n));
    if n >= 10 {
      DecimalNumeral(n / 10);
      assert s[..|s| - 1] == Chars(Text.Decimal(n / 10));
    }
  }

  lemma {:induction false} HexNumeral(n: nat)
    ensures AllDigits(Chars(Text.Hex(n)), 16)
    ensures Numeral(Chars(Text.Hex(n)), 16) == n
  {
    var s := Chars(Text.Hex(n));
    if n >= 16 {
      HexNumeral(n / 16);
      assert s[..|s| - 1] == Chars(Text.Hex(n / 16));
    }
  }

  /** "@" followed by a non-zero sector number in decimal, as `u64`
      renders it, skips to exactly that sector. */
  lemma SkipDecimalRoundTrip(n: nat)
    requires 0 < n <= ULONG_MAX
    ensures SkipTarget("@" + Chars(Text.Decimal(n))) == Some(n)
  {
    DecimalNumeral(n);
    var b := Text.Decimal(n);
    var d := Chars(b);
    assert Text.IsDigit(b[0]) && b[0] != '0' as int;
    assert d[0] == b[0] as char;
    assert ("@" + d)[1..] == d;
    assert ("@" + d)[1] == d[0];
  }

  /** "@0x" followed by a sector number in lowercase hexadecimal, as a
      pointer renders it, skips to exactly that sector. */
  lemma SkipHexRoundTrip(n: nat)
    requires n <= ULONG_MAX
    ensures SkipTarget("@0x" + Chars(Text.Hex(n))) == Some(n)
  {
    HexNumeral(n);
    var h := Chars(Text.Hex(n));
    var t := "@0x" + h;
    assert t[1..] == "0x" + h;
    assert |h| > 0;
    SkipAt(t);
    HexWhole(h);
  }

  /** After "@" and a digit, the rest is read as a whole number. */
  lemma SkipAt(t: string)
    requires |t| >= 2 && t[0] == '@' && '0' <= t[1] <= '9'
    ensures SkipTarget(t) == WholeNumber(t[1..])
  {
  }

  /** "0x" and hexadecimal digits of a value up to `ULONG_MAX` read back as
      that value. */
  lemma HexWhole(h: string)
    requires |h| > 0 && AllDigits(h, 16) && Numeral(h, 16) <= ULONG_MAX
    ensures WholeNumber("0x" + h) == Some(Numeral(h, 16))
  {
    assert ("0x" + h)[2..] == h;
  }
}
