/** The ELF32 executable header and program headers as `load` reads them,
    the header check of `load`, `validate_segment`, and the arithmetic that
    turns an accepted PT_LOAD segment into a page-aligned request for
    `load_segment` (Tool Interface Standard ELF specification, chapter 1
    "ELF Header" and chapter 2 "Program Header"). */
module Elf {
  import opened Bytes
  import opened Vaddr
  import opened Wrappers

  /** `struct Elf32_Ehdr`. */
  datatype Ehdr = Ehdr(
    ident: seq<byte>,
    etype: u16, machine: u16, version: u32, entry: u32,
    phoff: u32, shoff: u32, flags: u32,
    ehsize: u16, phentsize: u16, phnum: u16,
    shentsize: u16, shnum: u16, shstrndx: u16)

  /** `struct Elf32_Phdr`. */
  datatype Phdr = Phdr(
    ptype: u32, offset: u32, vaddr: u32, paddr: u32,
    filesz: u32, memsz: u32, pflags: u32, align: u32)

  /** `sizeof (struct Elf32_Ehdr)` and `sizeof (struct Elf32_Phdr)`. */
  const EHDR_SIZE: nat := 52
  const PHDR_SIZE: nat := 32

  /** The first seven identification bytes `load` insists on:
      ELFMAG, ELFCLASS32, ELFDATA2LSB, EV_CURRENT. */
  const ELF_MAGIC: seq<byte> := [0x7f, 0x45, 0x4c, 0x46, 1, 1, 1]

  const ET_EXEC: nat := 2
  const EM_386: nat := 3
  const EV_CURRENT: nat := 1
  const MAX_PHNUM: nat := 1024

  /** Values of p_type. */
  const PT_NULL: nat := 0
  const PT_LOAD: nat := 1
  const PT_DYNAMIC: nat := 2
  const PT_INTERP: nat := 3
  const PT_NOTE: nat := 4
  const PT_SHLIB: nat := 5
  const PT_PHDR: nat := 6
  const PT_STACK: nat := 0x6474_e551

  /** Values of p_flags. */
  const PF_X: nat := 1
  const PF_W: nat := 2
  const PF_R: nat := 4

  // ---------------------------------------------------------------------
  // Byte layout

  /** The little-endian 16-bit field at offset i; 32-bit fields are read with `Word`. */
  function Half(s: seq<byte>, i: nat): u16
    requires i + 2 <= |s|
  {
    Pow256Values();
    Decode(s[i..i + 2])
  }

  /** Reading `sizeof ehdr` bytes into the header: fails when fewer bytes are there. */
  function ParseEhdr(s: seq<byte>): (r: Option<Ehdr>)
    ensures r.Some? <==> |s| >= EHDR_SIZE
    ensures r.Some? ==> r.value.ident == s[..16]
  {
    if |s| < EHDR_SIZE then None
    else Some(Ehdr(s[..16], Half(s, 16), Half(s, 18), Word(s, 20), Word(s, 24),
                   Word(s, 28), Word(s, 32), Word(s, 36), Half(s, 40), Half(s, 42),
                   Half(s, 44), Half(s, 46), Half(s, 48), Half(s, 50)))
  }

  /** Reading `sizeof phdr` bytes into a program header: fails when fewer bytes are there. */
  function ParsePhdr(s: seq<byte>): (r: Option<Phdr>)
    ensures r.Some? <==> |s| >= PHDR_SIZE
  {
    if |s| < PHDR_SIZE then None
    else Some(Phdr(Word(s, 0), Word(s, 4), Word(s, 8), Word(s, 12),
                   Word(s, 16), Word(s, 20), Word(s, 24), Word(s, 28)))
  }

  /** The bytes of a header as they appear in an executable file. */
  function EncodeEhdr(h: Ehdr): (r: seq<byte>)
    requires |h.ident| == 16
    ensures |r| == EHDR_SIZE
  {
    h.ident + Encode(2, h.etype) + Encode(2, h.machine) + Encode(4, h.version) + Encode(4, h.entry)
    + Encode(4, h.phoff) + Encode(4, h.shoff) + Encode(4, h.flags) + Encode(2, h.ehsize)
    + Encode(2, h.phentsize) + Encode(2, h.phnum) + Encode(2, h.shentsize) + Encode(2, h.shnum)
    + Encode(2, h.shstrndx)
  }

  /** The bytes of a program header as they appear in an executable file. */
  function EncodePhdr(p: Phdr): (r: seq<byte>)
    ensures |r| == PHDR_SIZE
  {
    Encode(4, p.ptype) + Encode(4, p.offset) + Encode(4, p.vaddr) + Encode(4, p.paddr)
    + Encode(4, p.filesz) + Encode(4, p.memsz) + Encode(4, p.pflags) + Encode(4, p.align)
  }

  /** A field decoded from the place it was encoded at holds the value encoded. */
  lemma FieldAt(s: seq<byte>, i: nat, n: nat, x: nat)
    requires i + n <= |s| && x < Pow256(n) && s[i..i + n] == Encode(n, x)
    ensures Decode(s[i..i + n]) == x
  {
    DecodeEncode(n, x);
  }

  /** Parsing an encoded program header gives the header back. */
  lemma ParseEncodePhdr(p: Phdr, rest: seq<byte>)
    ensures ParsePhdr(EncodePhdr(p) + rest) == Some(p)
  {
    Pow256Values();
    var e0, e1, e2, e3, e4, e5, e6, e7 := Encode(4, p.ptype), Encode(4, p.offset), Encode(4, p.vaddr), Encode(4, p.paddr), Encode(4, p.filesz), Encode(4, p.memsz), Encode(4, p.pflags), Encode(4, p.align);
    var s := e0 + e1 + e2 + e3 + e4 + e5 + e6 + e7 + rest;
    assert s == EncodePhdr(p) + rest;
    assert s[0..4] == e0;
    assert s[4..8] == e1;
    assert s[8..12] == e2;
    assert s[12..16] == e3;
    assert s[16..20] == e4;
    assert s[20..24] == e5;
    assert s[24..28] == e6;
    assert s[28..32] == e7;
    DecodeEncode(4, p.ptype);
    DecodeEncode(4, p.offset);
    DecodeEncode(4, p.vaddr);
    DecodeEncode(4, p.paddr);
    DecodeEncode(4, p.filesz);
    DecodeEncode(4, p.memsz);
    DecodeEncode(4, p.pflags);
    DecodeEncode(4, p.align);
  }

  // ---------------------------------------------------------------------
  // The executable-header check (process.c, `load`)

  /** The conditions under which `load` accepts the executable header it read. */
  predicate HeaderAccepted(h: Ehdr) {
    |h.ident| >= 7 && h.ident[..7] == ELF_MAGIC
    && h.etype == ET_EXEC && h.machine == EM_386 && h.version == EV_CURRENT
    && h.phentsize == PHDR_SIZE && h.phnum <= MAX_PHNUM
  }

  /** The header `load` goes on with, or None when the read is short or the check fails. */
  function CheckHeader(file: seq<byte>): (r: Option<Ehdr>)
    ensures r.Some? ==> ParseEhdr(file) == r && HeaderAccepted(r.value)
    ensures r.None? ==> ParseEhdr(file).None? || !HeaderAccepted(ParseEhdr(file).value)
  {
    var h := ParseEhdr(file);
    if h.Some? && HeaderAccepted(h.value) then h else None
  }

  /** Any corrupted magic byte makes `load` reject the file. */
  lemma CorruptMagicRejected(file: seq<byte>, k: nat)
    requires k < 7 && k < |file| && file[k] != ELF_MAGIC[k]
    ensures CheckHeader(file).None?
  {
    if ParseEhdr(file).Some? {
      var h := ParseEhdr(file).value;
      assert h.ident[..7][k] == file[k];
    }
  }

  /** The fields of an encoded header, read back where `load` reads them, in four groups. */
  lemma EhdrFields1(h: Ehdr, rest: seq<byte>)
    requires |h.ident| == 16
    ensures Half(EncodeEhdr(h) + rest, 16) == h.etype
    ensures Half(EncodeEhdr(h) + rest, 18) == h.machine
    ensures Word(EncodeEhdr(h) + rest, 20) == h.version
  {
    Pow256Values();
    var e0, e1, e2, e3, e4, e5, e6, e7, e8, e9, e10, e11, e12 :=
      Encode(2, h.etype), Encode(2, h.machine), Encode(4, h.version), Encode(4, h.entry), Encode(4, h.phoff), Encode(4, h.shoff), Encode(4, h.flags), Encode(2, h.ehsize), Encode(2, h.phentsize), Encode(2, h.phnum), Encode(2, h.shentsize), Encode(2, h.shnum), Encode(2, h.shstrndx);
    var s := h.ident + e0 + e1 + e2 + e3 + e4 + e5 + e6 + e7 + e8 + e9 + e10 + e11 + e12 + rest;
    assert s == EncodeEhdr(h) + rest;
    assert s[16..18] == e0;
    assert s[18..20] == e1;
    assert s[20..24] == e2;
    DecodeEncode(2, h.etype);
    DecodeEncode(2, h.machine);
    DecodeEncode(4, h.version);
  }

  lemma EhdrFields2(h: Ehdr, rest: seq<byte>)
    requires |h.ident| == 16
    ensures Word(EncodeEhdr(h) + rest, 24) == h.entry
    ensures Word(EncodeEhdr(h) + rest, 28) == h.phoff
    ensures Word(EncodeEhdr(h) + rest, 32) == h.shoff
  {
    Pow256Values();
    var e0, e1, e2, e3, e4, e5, e6, e7, e8, e9, e10, e11, e12 :=
      Encode(2, h.etype), Encode(2, h.machine), Encode(4, h.version), Encode(4, h.entry), Encode(4, h.phoff), Encode(4, h.shoff), Encode(4, h.flags), Encode(2, h.ehsize), Encode(2, h.phentsize), Encode(2, h.phnum), Encode(2, h.shentsize), Encode(2, h.shnum), Encode(2, h.shstrndx);
    var s := h.ident + e0 + e1 + e2 + e3 + e4 + e5 + e6 + e7 + e8 + e9 + e10 + e11 + e12 + rest;
    assert s == EncodeEhdr(h) + rest;
    assert s[24..28] == e3;
    assert s[28..32] == e4;
    assert s[32..36] == e5;
    DecodeEncode(4, h.entry);
    DecodeEncode(4, h.phoff);
    DecodeEncode(4, h.shoff);
  }

  lemma EhdrFields3(h: Ehdr, rest: seq<byte>)
    requires |h.ident| == 16
    ensures Word(EncodeEhdr(h) + rest, 36) == h.flags
    ensures Half(EncodeEhdr(h) + rest, 40) == h.ehsize
    ensures Half(EncodeEhdr(h) + rest, 42) == h.phentsize
  {
    Pow256Values();
    var e0, e1, e2, e3, e4, e5, e6, e7, e8, e9, e10, e11, e12 :=
      Encode(2, h.etype), Encode(2, h.machine), Encode(4, h.version), Encode(4, h.entry), Encode(4, h.phoff), Encode(4, h.shoff), Encode(4, h.flags), Encode(2, h.ehsize), Encode(2, h.phentsize), Encode(2, h.phnum), Encode(2, h.shentsize), Encode(2, h.shnum), Encode(2, h.shstrndx);
    var s := h.ident + e0 + e1 + e2 + e3 + e4 + e5 + e6 + e7 + e8 + e9 + e10 + e11 + e12 + rest;
    assert s == EncodeEhdr(h) + rest;
    assert s[36..40] == e6;
    assert s[40..42] == e7;
    assert s[42..44] == e8;
    DecodeEncode(4, h.flags);
    DecodeEncode(2, h.ehsize);
    DecodeEncode(2, h.phentsize);
  }

  lemma EhdrFields4(h: Ehdr, rest: seq<byte>)
    requires |h.ident| == 16
    ensures Half(EncodeEhdr(h) + rest, 44) == h.phnum
    ensures Half(EncodeEhdr(h) + rest, 46) == h.shentsize
    ensures Half(EncodeEhdr(h) + rest, 48) == h.shnum
    ensures Half(EncodeEhdr(h) + rest, 50) == h.shstrndx
  {
    Pow256Values();
    var e0, e1, e2, e3, e4, e5, e6, e7, e8, e9, e10, e11, e12 :=
      Encode(2, h.etype), Encode(2, h.machine), Encode(4, h.version), Encode(4, h.entry), Encode(4, h.phoff), Encode(4, h.shoff), Encode(4, h.flags), Encode(2, h.ehsize), Encode(2, h.phentsize), Encode(2, h.phnum), Encode(2, h.shentsize), Encode(2, h.shnum), Encode(2, h.shstrndx);
    var s := h.ident + e0 + e1 + e2 + e3 + e4 + e5 + e6 + e7 + e8 + e9 + e10 + e11 + e12 + rest;
    assert s == EncodeEhdr(h) + rest;
    assert s[44..46] == e9;
    assert s[46..48] == e10;
    assert s[48..50] == e11;
    assert s[50..52] == e12;
    DecodeEncode(2, h.phnum);
    DecodeEncode(2, h.shentsize);
    DecodeEncode(2, h.shnum);
    DecodeEncode(2, h.shstrndx);
  }

  /** Parsing an encoded header gives the header back. */
  lemma ParseEncodeEhdr(h: Ehdr, rest: seq<byte>)
    requires |h.ident| == 16
    ensures ParseEhdr(EncodeEhdr(h) + rest) == Some(h)
  {
    EhdrFields1(h, rest);
    EhdrFields2(h, rest);
    EhdrFields3(h, rest);
    EhdrFields4(h, rest);
    assert (EncodeEhdr(h) + rest)[..16] == h.ident;
  }

  /** The byte image of an accepted header is itself accepted and describes
      program headers of exactly the size `load` reads, in a table of at most 32 kB. */
  lemma AcceptedHeaderRoundTrip(h: Ehdr, rest: seq<byte>)
    requires |h.ident| == 16 && HeaderAccepted(h)
    ensures CheckHeader(EncodeEhdr(h) + rest) == Some(h)
    ensures h.phentsize == |EncodePhdr(Phdr(0, 0, 0, 0, 0, 0, 0, 0))|
    ensures h.phnum * h.phentsize <= 32 * 1024
  {
    ParseEncodeEhdr(h, rest);
  }

  // ---------------------------------------------------------------------
  // Program headers (process.c, the loop of `load` and `validate_segment`)

  /** Seeking to file_ofs and reading one program header, as `load` does:
      an offset outside [0, file length] or a short read fails. */
  function ReadPhdr(file: seq<byte>, fileOfs: int): (r: Option<Phdr>)
    ensures r.Some? <==> 0 <= fileOfs && fileOfs + PHDR_SIZE <= |file|
  {
    if fileOfs < 0 || fileOfs > |file| then None else ParsePhdr(file[fileOfs..])
  }

  /** `validate_segment`, with the source's 32-bit sums written out. */
  predicate ValidateSegment(p: Phdr, fileLength: nat): (ok: bool)
    ensures ok ==> PGSIZE <= p.vaddr && p.vaddr + p.memsz < PHYS_BASE
    ensures ok ==> p.filesz <= p.memsz && p.offset <= fileLength
  {
    PgOfs(p.offset) == PgOfs(p.vaddr)
    && p.offset <= fileLength
    && p.memsz >= p.filesz
    && p.memsz != 0
    && IsUserVaddr(p.vaddr)
    && IsUserVaddr(Add32(p.vaddr, p.memsz))
    && Add32(p.vaddr, p.memsz) >= p.vaddr
    && p.vaddr >= PGSIZE
  }

  /** What an acceptable segment is, stated on unbounded integers. */
  predicate WellFormedSegment(p: Phdr, fileLength: nat) {
    p.offset % PGSIZE == p.vaddr % PGSIZE
    && p.offset <= fileLength
    && p.filesz <= p.memsz
    && 0 < p.memsz
    && PGSIZE <= p.vaddr
    && p.vaddr + p.memsz < PHYS_BASE
  }

  /** `validate_segment` accepts exactly the well-formed segments: the wrap
      check of line 451 is what turns the 32-bit end test into a true bound. */
  lemma ValidateSegmentIff(p: Phdr, fileLength: nat)
    ensures ValidateSegment(p, fileLength) <==> WellFormedSegment(p, fileLength)
  {
    if p.vaddr + p.memsz < PHYS_BASE {
      assert Add32(p.vaddr, p.memsz) == p.vaddr + p.memsz;
    }
  }

  /** Without the wrap check a segment reaching past 4 GB would pass every
      other test of `validate_segment`. */
  lemma WrapCheckNeeded()
    ensures var p := Phdr(PT_LOAD, 0, 0x8000_0000, 0, 0, 0x8000_1000, 0, 0);
      && IsUserVaddr(p.vaddr) && IsUserVaddr(Add32(p.vaddr, p.memsz))
      && PgOfs(p.offset) == PgOfs(p.vaddr) && p.memsz >= p.filesz && p.vaddr >= PGSIZE
      && !ValidateSegment(p, 0)
  {
    assert Add32(0x8000_0000, 0x8000_1000) == 0x1000;
  }

  /** How the loop of `load` treats one program header: PT_DYNAMIC, PT_INTERP
      and PT_SHLIB abort, PT_LOAD must pass `validate_segment`, anything else is ignored. */
  predicate PhdrAcceptable(p: Phdr, fileLength: nat): (ok: bool)
    ensures p.ptype in {PT_DYNAMIC, PT_INTERP, PT_SHLIB} ==> !ok
    ensures p.ptype !in {PT_LOAD, PT_DYNAMIC, PT_INTERP, PT_SHLIB} ==> ok
    ensures ok && p.ptype == PT_LOAD ==> PGSIZE <= p.vaddr && p.vaddr + p.memsz < PHYS_BASE
  {
    if p.ptype == PT_DYNAMIC || p.ptype == PT_INTERP || p.ptype == PT_SHLIB then false
    else if p.ptype == PT_LOAD then ValidateSegment(p, fileLength)
    else true
  }

  /** The file offset of program header i: `file_ofs` starts as `(off_t) e_phoff`
      and grows by `sizeof phdr` per header read. */
  function PhdrOffset(h: Ehdr, i: nat): int {
    ToInt32(h.phoff) + PHDR_SIZE * i
  }

  /** An executable whose header and every program header `load` accepts. */
  predicate ElfAccepted(file: seq<byte>) {
    CheckHeader(file).Some?
    && var h := CheckHeader(file).value;
       forall i :: 0 <= i < h.phnum ==>
         ReadPhdr(file, PhdrOffset(h, i)).Some?
         && PhdrAcceptable(ReadPhdr(file, PhdrOffset(h, i)).value, |file|)
  }

  /** An executable with a dynamic-linking segment is never accepted. */
  lemma DynamicRejected(file: seq<byte>, i: nat)
    requires CheckHeader(file).Some? && i < CheckHeader(file).value.phnum
    requires ReadPhdr(file, PhdrOffset(CheckHeader(file).value, i)).Some?
    requires ReadPhdr(file, PhdrOffset(CheckHeader(file).value, i)).value.ptype in {PT_DYNAMIC, PT_INTERP, PT_SHLIB}
    ensures !ElfAccepted(file)
  {
  }

  /** A loadable segment with p_memsz < p_filesz, or one mapped at address 0,
      makes the whole executable unacceptable. */
  lemma BadLoadSegmentRejected(file: seq<byte>, i: nat)
    requires CheckHeader(file).Some? && i < CheckHeader(file).value.phnum
    requires ReadPhdr(file, PhdrOffset(CheckHeader(file).value, i)).Some?
    requires var p := ReadPhdr(file, PhdrOffset(CheckHeader(file).value, i)).value;
      p.ptype == PT_LOAD && (p.memsz < p.filesz || p.vaddr == 0)
    ensures !ElfAccepted(file)
  {
  }

  // ---------------------------------------------------------------------
  // From segment to pages (process.c, `load`, lines 372-391)

  /** The arguments `load` passes to `load_segment` for a PT_LOAD segment. */
  datatype SegmentPlan = SegmentPlan(
    filePage: u32, memPage: u32, pageOffset: u32,
    readBytes: u32, zeroBytes: u32, writable: bool)

  /** `(p_flags & PF_W) != 0`: the PF_W bit of the flags is set, that is,
      the flags modulo 2 PF_W are at least PF_W. */
  predicate Writable(flags: u32): (w: bool)
    ensures w <==> flags % (2 * PF_W) >= PF_W
  {
    (flags / PF_W) % 2 == 1
  }

  /** The page arithmetic of `load`, in the source's 32-bit unsigned arithmetic. */
  function PlanSegment(p: Phdr): (q: SegmentPlan)
    ensures q.filePage % PGSIZE == 0 && q.filePage <= p.offset < q.filePage + PGSIZE
    ensures q.memPage % PGSIZE == 0 && q.memPage + q.pageOffset == p.vaddr && q.pageOffset < PGSIZE
    ensures p.filesz == 0 ==> q.readBytes == 0
  {
    var filePage := PgRoundDown(p.offset);
    var memPage := PgRoundDown(p.vaddr);
    var pageOffset := PgOfs(p.vaddr);
    if p.filesz > 0 then
      var readBytes := Add32(pageOffset, p.filesz);
      var zeroBytes := Sub32(RoundUpPage32(Add32(pageOffset, p.memsz)), readBytes);
      SegmentPlan(filePage, memPage, pageOffset, readBytes, zeroBytes, Writable(p.pflags))
    else
      SegmentPlan(filePage, memPage, pageOffset, 0, RoundUpPage32(Add32(pageOffset, p.memsz)),
                  Writable(p.pflags))
  }

  /** For a segment `validate_segment` accepts, none of the 32-bit operations
      wraps, and the plan meets the assertions at the top of `load_segment`: the
      data starts page_offset bytes into the page at mem_page; read_bytes covers
      the file part exactly; read_bytes + zero_bytes is the smallest whole number of
      pages covering page_offset + p_memsz; and the pages stay inside user memory
      above page 0. */
  lemma PlanFacts(p: Phdr, fileLength: nat)
    requires ValidateSegment(p, fileLength)
    ensures var q := PlanSegment(p);
      && q.filePage % PGSIZE == 0 && q.memPage % PGSIZE == 0
      && q.filePage + q.pageOffset == p.offset && q.memPage + q.pageOffset == p.vaddr
      && (q.readBytes + q.zeroBytes) % PGSIZE == 0
      && q.pageOffset + p.memsz <= q.readBytes + q.zeroBytes < q.pageOffset + p.memsz + PGSIZE
      && (p.filesz == 0 ==> q.readBytes == 0)
      && (p.filesz > 0 ==> q.readBytes == q.pageOffset + p.filesz)
      && PGSIZE <= q.memPage && q.memPage + q.readBytes + q.zeroBytes <= PHYS_BASE
      && q.writable == Writable(p.pflags)
  {
    ValidateSegmentIff(p, fileLength);
    var q := PlanSegment(p);
    var po := PgOfs(p.vaddr);
    assert Add32(po, p.memsz) == po + p.memsz;
    var top := RoundUpPage32(po + p.memsz);
    assert po + p.memsz <= top < po + p.memsz + PGSIZE && top % PGSIZE == 0;
    if p.filesz > 0 {
      assert Add32(po, p.filesz) == po + p.filesz;
      assert q.readBytes + q.zeroBytes == top;
    }
    // Rounding mem_page + page_offset + p_memsz up to a page boundary stays below PHYS_BASE.
    assert q.memPage + top <= PHYS_BASE by {
      var m := q.memPage / PGSIZE;
      assert q.memPage == m * PGSIZE;
      var t := top / PGSIZE;
      assert top == t * PGSIZE;
      assert (m + t) * PGSIZE < PHYS_BASE + PGSIZE;
      assert PHYS_BASE == 0xc0000 * PGSIZE;
      assert m + t <= 0xc0000;
    }
  }

  /** Where an accepted segment goes, on unbounded integers: the file page
      holding p_offset, the memory page holding p_vaddr, the bytes of the first
      pages that come from the file (page_offset + p_filesz, or none), and the
      number of whole pages covering page_offset + p_memsz. */
  datatype SegmentLayout = SegmentLayout(
    filePage: nat, firstPage: nat, readBytes: nat, pageCount: nat, writable: bool)

  function Layout(p: Phdr): SegmentLayout {
    var pageOffset := p.vaddr % PGSIZE;
    SegmentLayout(p.offset - p.offset % PGSIZE, p.vaddr / PGSIZE,
                  if p.filesz > 0 then pageOffset + p.filesz else 0,
                  (pageOffset + p.memsz + PGSIZE - 1) / PGSIZE, Writable(p.pflags))
  }

  /** For a segment `validate_segment` accepts, the 32-bit plan of `load` is
      that layout: the page-aligned starts, the bytes read, and
      (read_bytes + zero_bytes) / PGSIZE whole pages. */
  lemma PlanLayout(p: Phdr, fileLength: nat)
    requires ValidateSegment(p, fileLength)
    ensures var q := PlanSegment(p); var l := Layout(p);
      && q.filePage == l.filePage && q.filePage % PGSIZE == 0
      && q.memPage % PGSIZE == 0 && q.memPage / PGSIZE == l.firstPage
      && q.readBytes == l.readBytes
      && (q.readBytes + q.zeroBytes) % PGSIZE == 0 && (q.readBytes + q.zeroBytes) / PGSIZE == l.pageCount
      && q.writable == l.writable
  {
    PlanFacts(p, fileLength);
    var q := PlanSegment(p);
    var po := p.vaddr % PGSIZE;
    var t := (q.readBytes + q.zeroBytes) / PGSIZE;
    assert q.readBytes + q.zeroBytes == PGSIZE * t;
    assert PGSIZE * t <= po + p.memsz + PGSIZE - 1 < PGSIZE * (t + 1);
  }
}
