/** The ELF executable layout the boot loader and the kernel loader read
    (`elf.rs` of the shared crate, `bindings_elf.rs` of the kernel crate):
    a 64-byte executable header and 56-byte program headers, packed in
    declaration order, every field little endian, as chapter 4 "ELF Header"
    and chapter 5 "Program Header" of the System V gABI lay them out. */
module Elf {
  import opened X86

  // ---------------------------------------------------------------- little-endian words

  function Pow256(k: nat): (r: nat)
    ensures r >= 1
  {
    if k == 0 then 1 else 256 * Pow256(k - 1)
  }

  lemma Pow256Values()
    ensures Pow256(2) == 0x1_0000 && Pow256(4) == TWO_32 && Pow256(8) == TWO_64
  {
  }

  /** The little-endian value of a byte string: byte `i` weighs `256^i`. */
  function LeValue(b: seq<Byte>): (r: nat)
    ensures r < Pow256(|b|)
  {
    if |b| == 0 then 0 else b[0] + 256 * LeValue(b[1..])
  }

  /** The `k` little-endian bytes of `n`. */
  function LeBytes(n: nat, k: nat): (b: seq<Byte>)
    requires n < Pow256(k)
    ensures |b| == k
  {
    if k == 0 then [] else [n % 256] + LeBytes(n / 256, k - 1)
  }

  lemma {:induction false} LeRoundTrip(n: nat, k: nat)
    requires n < Pow256(k)
    ensures LeValue(LeBytes(n, k)) == n
  {
    if k > 0 {
      LeRoundTrip(n / 256, k - 1);
      assert LeBytes(n, k)[1..] == LeBytes(n / 256, k - 1);
    }
  }

  lemma {:induction false} LeBytesOfValue(b: seq<Byte>)
    ensures LeBytes(LeValue(b), |b|) == b
  {
    if |b| > 0 {
      LeBytesOfValue(b[1..]);
      assert LeValue(b) % 256 == b[0];
      assert LeValue(b) / 256 == LeValue(b[1..]);
    }
  }

  /** Byte strings of one length with the same value are the same bytes. */
  lemma LeValueInjective(a: seq<Byte>, b: seq<Byte>)
    requires |a| == |b|
    ensures LeValue(a) == LeValue(b) <==> a == b
  {
    if LeValue(a) == LeValue(b) {
      LeBytesOfValue(a);
      LeBytesOfValue(b);
    }
  }

  // ---------------------------------------------------------------- reading an image

  /** A byte of an image; reads past its end see zero. The kernel's loader
      and the boot loader do not bound their reads by the image or the disk,
      so past the end they read whatever memory follows (or the disk read
      fails); the model fixes those bytes at zero. */
  function ByteAt(img: seq<Byte>, i: nat): Byte
  {
    if i < |img| then img[i] else 0
  }

  /** The `w` bytes of the image from offset `off`. */
  function Window(img: seq<Byte>, off: nat, w: nat): (r: seq<Byte>)
    ensures |r| == w
  {
    seq<Byte>(w, i requires 0 <= i < w => ByteAt(img, off + i))
  }

  /** The little-endian field of width `w` at offset `off`. */
  function Field(img: seq<Byte>, off: nat, w: nat): (r: nat)
    ensures r < Pow256(w)
  {
    LeValue(Window(img, off, w))
  }

  // ---------------------------------------------------------------- constants

  const ELF_MAGIC: U32 := 0x464C457F
  /** The four bytes an ELF file begins with: 0x7F, 'E', 'L', 'F'. */
  const MAGIC_BYTES: seq<Byte> := [0x7F, 'E' as int, 'L' as int, 'F' as int]

  const ELF_PTYPE_LOAD: U32 := 1
  const ELF_PFLAG_EXEC: U32 := 1
  const ELF_PFLAG_WRITE: U32 := 2
  const ELF_PFLAG_READ: U32 := 4

  const ELF_HEADER_SIZE: nat := 64
  const ELF_PROGRAM_SIZE: nat := 56

  /** gABI offsets of the executable header fields. */
  const E_MAGIC: nat := 0x00
  const E_IDENT: nat := 0x04
  const E_TYPE: nat := 0x10
  const E_MACHINE: nat := 0x12
  const E_VERSION: nat := 0x14
  const E_ENTRY: nat := 0x18
  const E_PHOFF: nat := 0x20
  const E_SHOFF: nat := 0x28
  const E_FLAGS: nat := 0x30
  const E_EHSIZE: nat := 0x34
  const E_PHENTSIZE: nat := 0x36
  const E_PHNUM: nat := 0x38
  const E_SHENTSIZE: nat := 0x3a
  const E_SHNUM: nat := 0x3c
  const E_SHSTRNDX: nat := 0x3e

  /** gABI offsets of the program header fields. */
  const P_TYPE: nat := 0x00
  const P_FLAGS: nat := 0x04
  const P_OFFSET: nat := 0x08
  const P_VA: nat := 0x10
  const P_PA: nat := 0x18
  const P_FILESZ: nat := 0x20
  const P_MEMSZ: nat := 0x28
  const P_ALIGN: nat := 0x30

  /** Field widths of the packed structs, in declaration order. */
  const HEADER_WIDTHS: seq<nat> := [4, 12, 2, 2, 4, 8, 8, 8, 4, 2, 2, 2, 2, 2, 2]
  const PROGRAM_WIDTHS: seq<nat> := [4, 4, 8, 8, 8, 8, 8, 8]

  /** Where field `i` of a packed struct starts: the widths before it. */
  function Offset(widths: seq<nat>, i: nat): nat
    requires i <= |widths|
  {
    if i == 0 then 0 else Offset(widths, i - 1) + widths[i - 1]
  }

  /** Declaration order and packing put every field at its gABI offset, and
      the structs are 64 and 56 bytes long. */
  lemma PackedLayout()
    ensures Offset(HEADER_WIDTHS, 0) == E_MAGIC && Offset(HEADER_WIDTHS, 1) == E_IDENT
    ensures Offset(HEADER_WIDTHS, 2) == E_TYPE && Offset(HEADER_WIDTHS, 3) == E_MACHINE
    ensures Offset(HEADER_WIDTHS, 4) == E_VERSION && Offset(HEADER_WIDTHS, 5) == E_ENTRY
    ensures Offset(HEADER_WIDTHS, 6) == E_PHOFF && Offset(HEADER_WIDTHS, 7) == E_SHOFF
    ensures Offset(HEADER_WIDTHS, 8) == E_FLAGS && Offset(HEADER_WIDTHS, 9) == E_EHSIZE
    ensures Offset(HEADER_WIDTHS, 10) == E_PHENTSIZE && Offset(HEADER_WIDTHS, 11) == E_PHNUM
    ensures Offset(HEADER_WIDTHS, 12) == E_SHENTSIZE && Offset(HEADER_WIDTHS, 13) == E_SHNUM
    ensures Offset(HEADER_WIDTHS, 14) == E_SHSTRNDX
    ensures Offset(HEADER_WIDTHS, 15) == ELF_HEADER_SIZE
    ensures Offset(PROGRAM_WIDTHS, 0) == P_TYPE && Offset(PROGRAM_WIDTHS, 1) == P_FLAGS
    ensures Offset(PROGRAM_WIDTHS, 2) == P_OFFSET && Offset(PROGRAM_WIDTHS, 3) == P_VA
    ensures Offset(PROGRAM_WIDTHS, 4) == P_PA && Offset(PROGRAM_WIDTHS, 5) == P_FILESZ
    ensures Offset(PROGRAM_WIDTHS, 6) == P_MEMSZ && Offset(PROGRAM_WIDTHS, 7) == P_ALIGN
    ensures Offset(PROGRAM_WIDTHS, 8) == ELF_PROGRAM_SIZE
  {
    var h := HEADER_WIDTHS;
    assert Offset(h, 1) == 4;
    assert Offset(h, 2) == 0x10;
    assert Offset(h, 3) == 0x12;
    assert Offset(h, 4) == 0x14;
    assert Offset(h, 5) == 0x18;
    assert Offset(h, 6) == 0x20;
    assert Offset(h, 7) == 0x28;
    assert Offset(h, 8) == 0x30;
    assert Offset(h, 9) == 0x34;
    assert Offset(h, 10) == 0x36;
    assert Offset(h, 11) == 0x38;
    assert Offset(h, 12) == 0x3a;
    assert Offset(h, 13) == 0x3c;
    assert Offset(h, 14) == 0x3e;
    var p := PROGRAM_WIDTHS;
    assert Offset(p, 1) == 4;
    assert Offset(p, 2) == 8;
    assert Offset(p, 3) == 0x10;
    assert Offset(p, 4) == 0x18;
    assert Offset(p, 5) == 0x20;
    assert Offset(p, 6) == 0x28;
    assert Offset(p, 7) == 0x30;
  }

  /** `ELF_MAGIC` is "\x7FELF" read little endian, and the kernel crate's
      decimal spelling of it is the same number. */
  lemma MagicIsElf()
    ensures LeValue(MAGIC_BYTES) == ELF_MAGIC
    ensures ELF_MAGIC == 1179403647
  {
    var b := MAGIC_BYTES;
    assert b[1..][1..][1..] == [0x46] && LeValue([0x46]) == 0x46;
    assert b[1..][1..] == [0x4C, 0x46] && LeValue([0x4C, 0x46]) == 0x464C;
    assert b[1..] == [0x45, 0x4C, 0x46] && LeValue([0x45, 0x4C, 0x46]) == 0x464C45;
  }

  /** The three segment flags are distinct single bits. */
  lemma ProgramFlagBits()
    ensures ELF_PFLAG_EXEC == Pow2(0) && ELF_PFLAG_WRITE == Pow2(1) && ELF_PFLAG_READ == Pow2(2)
  {
  }

  // ---------------------------------------------------------------- headers

  /** `ElfHeader`; `ident` holds the twelve `e_elf` bytes. */
  datatype ElfHeader = ElfHeader(
    magic: U32, ident: seq<Byte>, etype: U16, machine: U16, version: U32,
    entry: U64, phoff: U64, shoff: U64, flags: U32, ehsize: U16,
    phentsize: U16, phnum: U16, shentsize: U16, shnum: U16, shstrndx: U16)
  {
    predicate Valid() { |ident| == 12 }
  }

  /** `ElfProgram`. */
  datatype ElfProgram = ElfProgram(
    ptype: U32, pflags: U32, offset: U64, va: U64, pa: U64,
    filesz: U64, memsz: U64, align: U64)

  /** The executable header read at offset `at` of an image, each field at
      its gABI offset. */
  function ReadHeader(img: seq<Byte>, at: nat): (h: ElfHeader)
    ensures h.Valid()
  {
    Pow256Values();
    ElfHeader(
      Field(img, at + E_MAGIC, 4), Window(img, at + E_IDENT, 12),
      Field(img, at + E_TYPE, 2), Field(img, at + E_MACHINE, 2),
      Field(img, at + E_VERSION, 4), Field(img, at + E_ENTRY, 8),
      Field(img, at + E_PHOFF, 8), Field(img, at + E_SHOFF, 8),
      Field(img, at + E_FLAGS, 4), Field(img, at + E_EHSIZE, 2),
      Field(img, at + E_PHENTSIZE, 2), Field(img, at + E_PHNUM, 2),
      Field(img, at + E_SHENTSIZE, 2), Field(img, at + E_SHNUM, 2),
      Field(img, at + E_SHSTRNDX, 2))
  }

  /** The program header read at offset `at` of an image. */
  function ReadProgram(img: seq<Byte>, at: nat): ElfProgram
  {
    Pow256Values();
    ElfProgram(
      Field(img, at + P_TYPE, 4), Field(img, at + P_FLAGS, 4),
      Field(img, at + P_OFFSET, 8), Field(img, at + P_VA, 8),
      Field(img, at + P_PA, 8), Field(img, at + P_FILESZ, 8),
      Field(img, at + P_MEMSZ, 8), Field(img, at + P_ALIGN, 8))
  }

  /** An image starts an ELF header at `at` exactly when its first four bytes
      there are 0x7F 'E' 'L' 'F'. */
  lemma MagicCheck(img: seq<Byte>, at: nat)
    ensures ReadHeader(img, at).magic == ELF_MAGIC <==> Window(img, at, 4) == MAGIC_BYTES
  {
    MagicIsElf();
    LeValueInjective(Window(img, at, 4), MAGIC_BYTES);
  }

  // ---------------------------------------------------------------- writing headers

  predicate HasWidths(ps: seq<seq<Byte>>, widths: seq<nat>)
  {
    |ps| == |widths| && forall j | 0 <= j < |ps| :: |ps[j]| == widths[j]
  }

  /** The first `i` pieces laid end to end begin the whole concatenation. */
  lemma {:induction false} ConcatPrefix(ps: seq<seq<Byte>>, i: nat)
    requires i <= |ps|
    ensures |Concat(ps[..i])| <= |Concat(ps)|
    ensures Concat(ps)[..|Concat(ps[..i])|] == Concat(ps[..i])
  {
    if i < |ps| {
      var front := ps[..|ps| - 1];
      assert front[..i] == ps[..i];
      assert ps == front + [ps[|ps| - 1]];
      ConcatAppend(front, ps[|ps| - 1]);
      ConcatPrefix(front, i);
    } else {
      assert ps[..i] == ps;
    }
  }

  /** The first `i` pieces take up the widths before field `i`. */
  lemma {:induction false} ConcatLength(ps: seq<seq<Byte>>, widths: seq<nat>, i: nat)
    requires HasWidths(ps, widths) && i <= |ps|
    ensures |Concat(ps[..i])| == Offset(widths, i)
  {
    if i > 0 {
      ConcatSnoc(ps, i - 1);
      ConcatLength(ps, widths, i - 1);
    }
  }

  /** In pieces laid end to end, piece `i` sits at the sum of the widths
      before it. */
  lemma ConcatPiece(ps: seq<seq<Byte>>, widths: seq<nat>, i: nat)
    requires HasWidths(ps, widths) && i < |ps|
    ensures Offset(widths, i) + widths[i] <= |Concat(ps)|
    ensures Concat(ps)[Offset(widths, i)..Offset(widths, i) + widths[i]] == ps[i]
  {
    ConcatLength(ps, widths, i);
    ConcatPrefix(ps, i + 1);
    ConcatSnoc(ps, i);
    assert |ps[i]| == widths[i];
    PieceInPrefix(Concat(ps), Concat(ps[..i]), ps[i]);
  }

  lemma ConcatSnoc(ps: seq<seq<Byte>>, i: nat)
    requires i < |ps|
    ensures Concat(ps[..i + 1]) == Concat(ps[..i]) + ps[i]
  {
    assert ps[..i + 1] == ps[..i] + [ps[i]];
    ConcatAppend(ps[..i], ps[i]);
  }

  /** A piece that follows `front` at the start of `whole` sits right after
      `front` in it. */
  lemma PieceInPrefix(whole: seq<Byte>, front: seq<Byte>, piece: seq<Byte>)
    requires |front + piece| <= |whole| && whole[..|front + piece|] == front + piece
    ensures whole[|front|..|front| + |piece|] == piece
  {
    assert whole[|front|..|front| + |piece|] == (front + piece)[|front|..];
  }

  function HeaderPieces(h: ElfHeader): (ps: seq<seq<Byte>>)
    requires h.Valid()
  {
    Pow256Values();
    [LeBytes(h.magic, 4), h.ident, LeBytes(h.etype, 2), LeBytes(h.machine, 2),
     LeBytes(h.version, 4), LeBytes(h.entry, 8), LeBytes(h.phoff, 8),
     LeBytes(h.shoff, 8), LeBytes(h.flags, 4), LeBytes(h.ehsize, 2),
     LeBytes(h.phentsize, 2), LeBytes(h.phnum, 2), LeBytes(h.shentsize, 2),
     LeBytes(h.shnum, 2), LeBytes(h.shstrndx, 2)]
  }

  function ProgramPieces(p: ElfProgram): (ps: seq<seq<Byte>>)
  {
    Pow256Values();
    [LeBytes(p.ptype, 4), LeBytes(p.pflags, 4), LeBytes(p.offset, 8),
     LeBytes(p.va, 8), LeBytes(p.pa, 8), LeBytes(p.filesz, 8),
     LeBytes(p.memsz, 8), LeBytes(p.align, 8)]
  }

  lemma PiecesWidths(h: ElfHeader, p: ElfProgram)
    requires h.Valid()
    ensures HasWidths(HeaderPieces(h), HEADER_WIDTHS)
    ensures HasWidths(ProgramPieces(p), PROGRAM_WIDTHS)
  {
  }

  /** The packed `ElfHeader` struct as bytes: its fields in declaration order. */
  function EncodeHeader(h: ElfHeader): (b: seq<Byte>)
    requires h.Valid()
    ensures |b| == ELF_HEADER_SIZE
  {
    PiecesWidths(h, ElfProgram(0, 0, 0, 0, 0, 0, 0, 0));
    ConcatLength(HeaderPieces(h), HEADER_WIDTHS, 15);
    PackedLayout();
    assert HeaderPieces(h)[..15] == HeaderPieces(h);
    Concat(HeaderPieces(h))
  }

  /** The packed `ElfProgram` struct as bytes. */
  function EncodeProgram(p: ElfProgram): (b: seq<Byte>)
    ensures |b| == ELF_PROGRAM_SIZE
  {
    PiecesWidths(ElfHeader(0, seq(12, _ => 0), 0, 0, 0, 0, 0, 0, 0, 0, 0, 0, 0, 0, 0), p);
    ConcatLength(ProgramPieces(p), PROGRAM_WIDTHS, 8);
    PackedLayout();
    assert ProgramPieces(p)[..8] == ProgramPieces(p);
    Concat(ProgramPieces(p))
  }

  /** The window over bytes that lie inside the image is a slice of it. */
  lemma WindowInside(img: seq<Byte>, off: nat, w: nat)
    requires off + w <= |img|
    ensures Window(img, off, w) == img[off..off + w]
  {
    forall k | 0 <= k < w
      ensures Window(img, off, w)[k] == img[off..off + w][k]
    {
      assert Window(img, off, w)[k] == ByteAt(img, off + k) == img[off + k];
    }
  }

  /** The middle part of an image, sliced at offsets shifted past the front. */
  lemma SliceMiddle(pre: seq<Byte>, e: seq<Byte>, post: seq<Byte>, a: nat, b: nat)
    requires a <= b <= |e|
    ensures (pre + e + post)[|pre| + a..|pre| + b] == e[a..b]
  {
    var img := pre + e + post;
    forall k | 0 <= k < b - a
      ensures img[|pre| + a..|pre| + b][k] == e[a..b][k]
    {
      assert img[|pre| + a + k] == e[a + k];
    }
  }

  /** Bytes placed anywhere in an image read back through a window. */
  lemma BytesAt(pre: seq<Byte>, e: seq<Byte>, post: seq<Byte>, off: nat, x: seq<Byte>)
    requires off + |x| <= |e| && e[off..off + |x|] == x
    ensures Window(pre + e + post, |pre| + off, |x|) == x
  {
    WindowInside(pre + e + post, |pre| + off, |x|);
    SliceMiddle(pre, e, post, off, off + |x|);
  }

  /** A piece of the encoded struct, placed anywhere in an image, reads back. */
  lemma PieceAt(pre: seq<Byte>, e: seq<Byte>, post: seq<Byte>, ps: seq<seq<Byte>>,
                widths: seq<nat>, i: nat, off: nat)
    requires HasWidths(ps, widths) && i < |ps| && e == Concat(ps)
    requires off == Offset(widths, i)
    ensures Window(pre + e + post, |pre| + off, widths[i]) == ps[i]
  {
    ConcatPiece(ps, widths, i);
    BytesAt(pre, e, post, off, ps[i]);
  }

  /** A little-endian piece read back gives the field's value. */
  lemma FieldAt(pre: seq<Byte>, e: seq<Byte>, post: seq<Byte>, ps: seq<seq<Byte>>,
                widths: seq<nat>, i: nat, off: nat, v: nat)
    requires HasWidths(ps, widths) && i < |ps| && e == Concat(ps)
    requires off == Offset(widths, i)
    requires v < Pow256(widths[i]) && ps[i] == LeBytes(v, widths[i])
    ensures Field(pre + e + post, |pre| + off, widths[i]) == v
  {
    PieceAt(pre, e, post, ps, widths, i, off);
    LeRoundTrip(v, widths[i]);
  }

  /** Reading an encoded header back, wherever it sits in an image, gives the
      header. */
  lemma HeaderRoundTrip(h: ElfHeader, pre: seq<Byte>, post: seq<Byte>)
    requires h.Valid()
    ensures ReadHeader(pre + EncodeHeader(h) + post, |pre|) == h
  {
    PackedLayout();
    Pow256Values();
    PiecesWidths(h, ElfProgram(0, 0, 0, 0, 0, 0, 0, 0));
    var ps, e := HeaderPieces(h), EncodeHeader(h);
    var w := HEADER_WIDTHS;
    FieldAt(pre, e, post, ps, w, 0, E_MAGIC, h.magic);
    PieceAt(pre, e, post, ps, w, 1, E_IDENT);
    FieldAt(pre, e, post, ps, w, 2, E_TYPE, h.etype);
    FieldAt(pre, e, post, ps, w, 3, E_MACHINE, h.machine);
    FieldAt(pre, e, post, ps, w, 4, E_VERSION, h.version);
    FieldAt(pre, e, post, ps, w, 5, E_ENTRY, h.entry);
    FieldAt(pre, e, post, ps, w, 6, E_PHOFF, h.phoff);
    FieldAt(pre, e, post, ps, w, 7, E_SHOFF, h.shoff);
    FieldAt(pre, e, post, ps, w, 8, E_FLAGS, h.flags);
    FieldAt(pre, e, post, ps, w, 9, E_EHSIZE, h.ehsize);
    FieldAt(pre, e, post, ps, w, 10, E_PHENTSIZE, h.phentsize);
    FieldAt(pre, e, post, ps, w, 11, E_PHNUM, h.phnum);
    FieldAt(pre, e, post, ps, w, 12, E_SHENTSIZE, h.shentsize);
    FieldAt(pre, e, post, ps, w, 13, E_SHNUM, h.shnum);
    FieldAt(pre, e, post, ps, w, 14, E_SHSTRNDX, h.shstrndx);
  }

  /** Reading an encoded program header back gives the program header. */
  lemma ProgramRoundTrip(p: ElfProgram, pre: seq<Byte>, post: seq<Byte>)
    ensures ReadProgram(pre + EncodeProgram(p) + post, |pre|) == p
  {
    PackedLayout();
    Pow256Values();
    PiecesWidths(ElfHeader(0, seq(12, _ => 0), 0, 0, 0, 0, 0, 0, 0, 0, 0, 0, 0, 0, 0), p);
    var ps, e := ProgramPieces(p), EncodeProgram(p);
    var w := PROGRAM_WIDTHS;
    FieldAt(pre, e, post, ps, w, 0, P_TYPE, p.ptype);
    FieldAt(pre, e, post, ps, w, 1, P_FLAGS, p.pflags);
    FieldAt(pre, e, post, ps, w, 2, P_OFFSET, p.offset);
    FieldAt(pre, e, post, ps, w, 3, P_VA, p.va);
    FieldAt(pre, e, post, ps, w, 4, P_PA, p.pa);
    FieldAt(pre, e, post, ps, w, 5, P_FILESZ, p.filesz);
    FieldAt(pre, e, post, ps, w, 6, P_MEMSZ, p.memsz);
    FieldAt(pre, e, post, ps, w, 7, P_ALIGN, p.align);
  }

  /** Program header `i` of an image: `e_phoff + 56 * i` from the header. */
  function ProgramAt(img: seq<Byte>, h: ElfHeader, i: nat): ElfProgram
  {
    ReadProgram(img, h.phoff + ELF_PROGRAM_SIZE * i)
  }

  /** Whether a segment's flags include `ELF_PFLAG_WRITE`. */
  predicate IsWritableSegment(p: ElfProgram)
  {
    (p.pflags / 2) % 2 == 1
  }
}
