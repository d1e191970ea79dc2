/** A user process's address space as the loader builds it: the page
    directory (user page base -> page contents and writability), the user
    page pool it draws pages from, and the operations of process.c that change
    them: `install_page`, `load_segment`, `setup_stack` and `load`. */
module AddressSpace {
  import opened Bytes
  import opened Vaddr
  import opened Elf
  import opened Wrappers

  /** A mapped user page: its contents and whether user code may write it. */
  datatype Frame = Frame(data: seq<byte>, writable: bool)

  /** The user half of a page directory: virtual page number (address / PGSIZE) -> page. */
  type PageMap = map<nat, Frame>

  /** The page number of STACK_PAGE, the initial stack page. */
  const STACK_PN: nat := STACK_PAGE / PGSIZE

  /** Every mapped page is whole. */
  ghost predicate WellFormed(pages: PageMap) {
    forall p :: p in pages ==> |pages[p].data| == PGSIZE
  }

  /** m' agrees with m everywhere m is defined. */
  ghost predicate Submap(m: PageMap, m': PageMap) {
    forall p :: p in m ==> p in m' && m'[p] == m[p]
  }

  lemma UnionUpdate(m1: PageMap, m2: PageMap, k: nat, v: Frame)
    ensures (m1 + m2)[k := v] == m1 + m2[k := v]
  {
  }

  lemma SubmapTrans(m: PageMap, m': PageMap, m'': PageMap)
    requires Submap(m, m') && Submap(m', m'')
    ensures Submap(m, m'')
  {
  }

  /** The page number of a page-aligned address. */
  lemma PageNumber(va: nat, p: nat)
    requires va == PGSIZE * p
    ensures va % PGSIZE == 0 && va / PGSIZE == p
  {
  }

  /** `file_read` on a file positioned at pos: at most n bytes, fewer at end of file. */
  function FileRead(file: seq<byte>, pos: nat, n: nat): (r: seq<byte>)
    ensures |r| <= n
    ensures |r| == n <==> n == 0 || pos + n <= |file|
    ensures forall i :: 0 <= i < |r| ==> pos + i < |file| && r[i] == file[pos + i]
  {
    if pos >= |file| then [] else if pos + n <= |file| then file[pos..pos + n] else file[pos..]
  }

  // ---------------------------------------------------------------------
  // What `load_segment` puts in memory

  /** Byte off of a segment laid out from file offset ofs: the first readBytes
      bytes come from the file, the rest are zero. */
  function SegmentByte(file: seq<byte>, ofs: nat, readBytes: nat, off: nat): byte {
    if off < readBytes && ofs + off < |file| then file[ofs + off] else 0
  }

  /** The page d bytes into the segment. */
  function PageImage(file: seq<byte>, ofs: nat, readBytes: nat, d: nat): (r: seq<byte>)
    ensures |r| == PGSIZE
  {
    seq<byte>(PGSIZE, i requires 0 <= i < PGSIZE => SegmentByte(file, ofs, readBytes, d + i))
  }

  /** The first count pages of a segment whose first page is number upn. */
  function SegmentImage(file: seq<byte>, ofs: nat, upn: nat, readBytes: nat, count: nat, writable: bool): (m: PageMap)
    ensures forall p :: p in m <==> upn <= p < upn + count
    ensures forall p :: p in m ==> upn <= p && m[p] == Frame(PageImage(file, ofs, readBytes, PGSIZE * (p - upn)), writable)
    decreases count
  {
    if count == 0 then map[]
    else
      SegmentImage(file, ofs, upn, readBytes, count - 1, writable)
        [upn + count - 1 := Frame(PageImage(file, ofs, readBytes, PGSIZE * (count - 1)), writable)]
  }

  /** after is base with the first count pages of a segment added. */
  ghost predicate Extends(after: PageMap, base: PageMap, file: seq<byte>, ofs: nat, upn: nat,
                          readBytes: nat, count: nat, writable: bool) {
    after == base + SegmentImage(file, ofs, upn, readBytes, count, writable)
  }

  /** None of the pages upn .. upn + count - 1 is mapped. */
  ghost predicate Unmapped(pages: PageMap, upn: nat, count: nat) {
    forall p :: p in pages ==> !(upn <= p < upn + count)
  }

  /** The conditions under which `load_segment` succeeds on count pages:
      enough free user pages, the file part inside the file, and none of the
      segment's pages already mapped. */
  ghost predicate SegmentFits(pages: PageMap, free: nat, fileLength: nat,
                              ofs: nat, upn: nat, readBytes: nat, count: nat) {
    count <= free
    && (readBytes == 0 || ofs + readBytes <= fileLength)
    && Unmapped(pages, upn, count)
  }

  /** The pages `load` maps for one accepted PT_LOAD program header. */
  function PhdrImage(file: seq<byte>, p: Phdr): PageMap {
    var l := Layout(p);
    SegmentImage(file, l.filePage, l.firstPage, l.readBytes, l.pageCount, l.writable)
  }

  /** `load_segment` succeeds on the pages of a PT_LOAD program header. */
  ghost predicate PhdrFits(pages: PageMap, free: nat, fileLength: nat, p: Phdr) {
    var l := Layout(p);
    SegmentFits(pages, free, fileLength, l.filePage, l.firstPage, l.readBytes, l.pageCount)
  }

  /** The page `load_segment` fills on the iteration that starts done bytes in. */
  lemma FilledPage(file: seq<byte>, ofs: nat, readBytes: nat, done: nat, pos: nat, pageRead: nat)
    requires pageRead <= PGSIZE
    requires pageRead == if done < readBytes then Min(readBytes - done, PGSIZE) else 0
    requires pageRead == 0 || (pos == ofs + done && pos + pageRead <= |file|)
    ensures FileRead(file, pos, pageRead) + Zeros(PGSIZE - pageRead) == PageImage(file, ofs, readBytes, done)
  {
    var k := FileRead(file, pos, pageRead) + Zeros(PGSIZE - pageRead);
    var img := PageImage(file, ofs, readBytes, done);
    assert |k| == PGSIZE;
    forall i | 0 <= i < PGSIZE
      ensures k[i] == img[i]
    {
      assert img[i] == SegmentByte(file, ofs, readBytes, done + i);
      if i < pageRead {
        assert k[i] == file[ofs + done + i];
      } else {
        assert k[i] == 0;
        assert done + i >= readBytes;
      }
    }
  }

  /** after keeps every page of before, and every page it adds is one of
      the count pages of the segment, with the segment's contents. */
  ghost predicate Grown(before: PageMap, after: PageMap, file: seq<byte>, ofs: nat, upn: nat,
                        readBytes: nat, count: nat, writable: bool) {
    && Submap(before, after)
    && forall p :: p in after && p !in before ==>
         upn <= p < upn + count && after[p] == Frame(PageImage(file, ofs, readBytes, PGSIZE * (p - upn)), writable)
  }

  /** The first k pages of a segment were mapped on top of pages that held
      none of them: the old pages survive and every new page is a segment page
      with the segment's contents. */
  lemma PartialImage(before: PageMap, after: PageMap, file: seq<byte>, ofs: nat, upn: nat,
                     readBytes: nat, k: nat, count: nat, writable: bool)
    requires k <= count
    requires Extends(after, before, file, ofs, upn, readBytes, k, writable)
    requires Unmapped(before, upn, k)
    ensures Grown(before, after, file, ofs, upn, readBytes, count, writable)
  {
  }

  /** Mapping page k of a segment extends the image of its first k pages by
      that page, and the pages mapped before still hold none of the segment. */
  lemma ImageStep(base: PageMap, before: PageMap, after: PageMap, file: seq<byte>, ofs: nat,
                  upn: nat, readBytes: nat, k: nat, writable: bool)
    requires Extends(before, base, file, ofs, upn, readBytes, k, writable)
    requires Unmapped(base, upn, k)
    requires upn + k !in before
    requires after == before[upn + k := Frame(PageImage(file, ofs, readBytes, PGSIZE * k), writable)]
    ensures Extends(after, base, file, ofs, upn, readBytes, k + 1, writable)
    ensures Unmapped(base, upn, k + 1)
  {
    var frame := Frame(PageImage(file, ofs, readBytes, PGSIZE * k), writable);
    var image := SegmentImage(file, ofs, upn, readBytes, k, writable);
    assert SegmentImage(file, ofs, upn, readBytes, k + 1, writable) == image[upn + k := frame];
    UnionUpdate(base, image, upn + k, frame);
  }

  /** A page that `load_segment` loaded successfully as page k of a segment
      extends the segment's image by one page. */
  lemma PageLoaded(base: PageMap, before: PageMap, after: PageMap, file: seq<byte>, ofs: nat,
                   upn: nat, readBytes: nat, k: nat, up: nat, pos: nat, pageRead: nat, writable: bool)
    requires pageRead == if PGSIZE * k < readBytes then Min(readBytes - PGSIZE * k, PGSIZE) else 0
    requires pageRead == 0 || (pos == ofs + PGSIZE * k && pos + pageRead <= |file|)
    requires up / PGSIZE == upn + k
    requires Extends(before, base, file, ofs, upn, readBytes, k, writable)
    requires Unmapped(base, upn, k)
    requires up / PGSIZE !in before
    requires after == before[up / PGSIZE := Frame(FileRead(file, pos, pageRead) + Zeros(PGSIZE - pageRead), writable)]
    ensures Extends(after, base, file, ofs, upn, readBytes, k + 1, writable)
    ensures Unmapped(base, upn, k + 1)
  {
    FilledPage(file, ofs, readBytes, PGSIZE * k, pos, pageRead);
    ImageStep(base, before, after, file, ofs, upn, readBytes, k, writable);
  }

  /** When page k of the segment cannot be loaded (the pool is used up,
      the read comes back short, or the page is already mapped) the segment
      did not fit in the first place. */
  lemma PageFailNoFit(base: PageMap, before: PageMap, free: nat, freeNow: nat, file: seq<byte>,
                      ofs: nat, upn: nat, readBytes: nat, count: nat, k: nat, pos: nat, pageRead: nat,
                      writable: bool)
    requires k < count && k <= free && freeNow == free - k
    requires pageRead == if PGSIZE * k < readBytes then Min(readBytes - PGSIZE * k, PGSIZE) else 0
    requires pageRead == 0 || pos == ofs + PGSIZE * k
    requires Extends(before, base, file, ofs, upn, readBytes, k, writable)
    requires Unmapped(base, upn, k)
    requires !(freeNow > 0 && (pageRead == 0 || pos + pageRead <= |file|) && upn + k !in before)
    ensures !SegmentFits(base, free, |file|, ofs, upn, readBytes, count)
  {
    if freeNow > 0 && (pageRead == 0 || pos + pageRead <= |file|) {
      assert upn + k !in SegmentImage(file, ofs, upn, readBytes, k, writable);
      assert upn + k in base;
    }
  }

  /** The loop variables of `load_segment` after k of its n pages: rb bytes
      still to read, zb still to zero, the file at pos and the next page at up. */
  ghost predicate Cursor(readBytes: nat, ofs: nat, upn: nat, n: nat, k: nat,
                         rb: nat, zb: nat, pos: nat, up: nat) {
    && k <= n
    && up == PGSIZE * (upn + k)
    && rb + zb == PGSIZE * (n - k)
    && rb == (if PGSIZE * k <= readBytes then readBytes - PGSIZE * k else 0)
    && pos == ofs + (readBytes - rb)
  }

  lemma CursorStart(readBytes: nat, zeroBytes: nat, ofs: nat, upage: nat)
    requires (readBytes + zeroBytes) % PGSIZE == 0 && upage % PGSIZE == 0
    ensures Cursor(readBytes, ofs, upage / PGSIZE, (readBytes + zeroBytes) / PGSIZE, 0,
                   readBytes, zeroBytes, ofs, upage)
  {
  }

  /** One more turn of the loop: page k exists, its file part is what
      `page_read_bytes` computes, and the advanced variables describe k + 1 pages. */
  lemma CursorNext(readBytes: nat, ofs: nat, upn: nat, n: nat, k: nat,
                   rb: nat, zb: nat, pos: nat, up: nat)
    requires Cursor(readBytes, ofs, upn, n, k, rb, zb, pos, up) && (rb > 0 || zb > 0)
    ensures k < n
    ensures Min(rb, PGSIZE) == if PGSIZE * k < readBytes then Min(readBytes - PGSIZE * k, PGSIZE) else 0
    ensures Min(rb, PGSIZE) == 0 || pos == ofs + PGSIZE * k
    ensures zb >= PGSIZE - Min(rb, PGSIZE)
    ensures Cursor(readBytes, ofs, upn, n, k + 1, rb - Min(rb, PGSIZE), zb - (PGSIZE - Min(rb, PGSIZE)),
                   pos + Min(rb, PGSIZE), up + PGSIZE)
  {
  }

  /** The loop ends after exactly n pages. */
  lemma CursorEnd(readBytes: nat, ofs: nat, upn: nat, n: nat, k: nat, pos: nat, up: nat)
    requires Cursor(readBytes, ofs, upn, n, k, 0, 0, pos, up)
    ensures k == n && pos == ofs + readBytes
  {
  }

  function Min(a: nat, b: nat): nat {
    if a < b then a else b
  }

  // ---------------------------------------------------------------------
  // What `load` puts in memory

  /** The outcome of `load`: on success the entry point (`*eip`) and the
      initial stack pointer (`*esp`). */
  datatype LoadResult = LoadFailed | Loaded(entry: u32, esp: nat)

  /** The number of user pages: user page numbers are below it. */
  const USER_PAGES: nat := PHYS_BASE / PGSIZE

  /** after keeps every page of before and adds only user pages other than page 0. */
  ghost predicate UserPagesAdded(before: PageMap, after: PageMap) {
    && Submap(before, after)
    && forall p :: p in after && p !in before ==> 1 <= p < USER_PAGES
  }

  /** Program header j of the file was read and accepted, and if it is a
      PT_LOAD segment its pages are mapped in pages with its file part inside the file. */
  ghost predicate HeaderLoaded(file: seq<byte>, h: Ehdr, j: nat, pages: PageMap) {
    var r := ReadPhdr(file, PhdrOffset(h, j));
    r.Some? && PhdrAcceptable(r.value, |file|) && SegmentLoaded(file, r.value, pages)
  }

  /** The first i program headers were read, accepted and loaded. */
  ghost predicate HeadersLoaded(file: seq<byte>, h: Ehdr, i: nat, pages: PageMap) {
    forall j :: 0 <= j < i ==> HeaderLoaded(file, h, j, pages)
  }

  /** A PT_LOAD segment's pages are mapped and its file part is inside the
      file; other segments map nothing. */
  ghost predicate SegmentLoaded(file: seq<byte>, p: Phdr, pages: PageMap) {
    p.ptype == PT_LOAD ==>
      Submap(PhdrImage(file, p), pages) && p.offset + p.filesz <= |file|
  }

  /** The PT_LOAD program header j, if it can be read. */
  ghost predicate LoadHeader(file: seq<byte>, h: Ehdr, j: nat) {
    ReadPhdr(file, PhdrOffset(h, j)).Some? && ReadPhdr(file, PhdrOffset(h, j)).value.ptype == PT_LOAD
  }

  /** Page pn belongs to the image of one of the first n PT_LOAD program headers. */
  ghost predicate ImagePage(file: seq<byte>, h: Ehdr, n: nat, pn: nat) {
    exists j :: 0 <= j < n && LoadHeader(file, h, j) && pn in PhdrImage(file, ReadPhdr(file, PhdrOffset(h, j)).value)
  }

  /** The pool pages the first n program headers take: the page count of
      each PT_LOAD segment among them. */
  ghost function PagesUsed(file: seq<byte>, h: Ehdr, n: nat): nat {
    if n == 0 then 0
    else PagesUsed(file, h, n - 1)
         + if LoadHeader(file, h, n - 1) then Layout(ReadPhdr(file, PhdrOffset(h, n - 1)).value).pageCount else 0
  }

  /** Loading program header i adds the pages of its image and takes as
      many from the pool, if it is a PT_LOAD segment, and nothing otherwise. */
  lemma HeaderAdds(file: seq<byte>, h: Ehdr, i: nat, p: Phdr, base: PageMap, before: PageMap, after: PageMap,
                   free0: nat, freeBefore: nat, freeAfter: nat)
    requires ReadPhdr(file, PhdrOffset(h, i)) == Some(p)
    requires forall pn :: pn in before && pn !in base ==> ImagePage(file, h, i, pn)
    requires freeBefore + PagesUsed(file, h, i) == free0
    requires p.ptype == PT_LOAD ==> after == before + PhdrImage(file, p) && freeAfter == freeBefore - Layout(p).pageCount
    requires p.ptype != PT_LOAD ==> after == before && freeAfter == freeBefore
    ensures forall pn :: pn in after && pn !in base ==> ImagePage(file, h, i + 1, pn)
    ensures freeAfter + PagesUsed(file, h, i + 1) == free0
  {
    forall pn | pn in after && pn !in base
      ensures ImagePage(file, h, i + 1, pn)
    {
      if pn in before {
        var j :| 0 <= j < i && LoadHeader(file, h, j) && pn in PhdrImage(file, ReadPhdr(file, PhdrOffset(h, j)).value);
        assert 0 <= j < i + 1;
      } else {
        assert LoadHeader(file, h, i) && pn in PhdrImage(file, p);
      }
    }
  }

  /** Mapping the stack page adds only the stack page. */
  lemma StackAdds(file: seq<byte>, h: Ehdr, n: nat, base: PageMap, before: PageMap, after: PageMap)
    requires forall pn :: pn in before && pn !in base ==> ImagePage(file, h, n, pn)
    requires after == before[STACK_PN := Frame(Zeros(PGSIZE), true)]
    ensures forall pn :: pn in after && pn !in base ==> pn == STACK_PN || ImagePage(file, h, n, pn)
  {
  }

  lemma SubmapUnion(m1: PageMap, m2: PageMap)
    ensures Submap(m2, m1 + m2)
  {
  }

  /** What a header loaded stays loaded when pages are only added. */
  lemma HeaderLoadedGrows(file: seq<byte>, h: Ehdr, j: nat, before: PageMap, after: PageMap)
    requires HeaderLoaded(file, h, j, before) && Submap(before, after)
    ensures HeaderLoaded(file, h, j, after)
  {
    var p := ReadPhdr(file, PhdrOffset(h, j)).value;
    if p.ptype == PT_LOAD {
      SubmapTrans(PhdrImage(file, p), before, after);
    }
  }

  /** Program header i loaded: one more header loaded, and what was loaded
      before stays loaded in the grown page map. */
  lemma HeaderStep(file: seq<byte>, h: Ehdr, i: nat, before: PageMap, after: PageMap)
    requires HeadersLoaded(file, h, i, before) && Submap(before, after)
    requires HeaderLoaded(file, h, i, after)
    ensures HeadersLoaded(file, h, i + 1, after)
  {
    forall j | 0 <= j < i
      ensures HeaderLoaded(file, h, j, after)
    {
      HeaderLoadedGrows(file, h, j, before, after);
    }
  }

  lemma UserPagesTrans(m: PageMap, m': PageMap, m'': PageMap)
    requires UserPagesAdded(m, m') && UserPagesAdded(m', m'')
    ensures UserPagesAdded(m, m'')
  {
  }

  /** The pages of an accepted segment are user pages above page 0. */
  lemma PlanPagesUser(p: Phdr, fileLength: nat)
    requires ValidateSegment(p, fileLength)
    ensures 1 <= Layout(p).firstPage && Layout(p).firstPage + Layout(p).pageCount <= USER_PAGES
  {
    ValidateSegmentIff(p, fileLength);
    var l := Layout(p);
    var po := p.vaddr % PGSIZE;
    assert p.vaddr == PGSIZE * l.firstPage + po;
    assert PGSIZE * l.pageCount <= po + p.memsz + PGSIZE - 1;
    assert PGSIZE * (l.firstPage + l.pageCount) < PGSIZE * (USER_PAGES + 1);
  }

  /** The arguments `load` passes to `load_segment` for an accepted segment
      describe its layout: they meet the alignment `load_segment` asserts,
      they name as many pages as the layout, and they fit exactly when the
      segment's pages fit. */
  lemma PlanArguments(file: seq<byte>, p: Phdr, pages: PageMap, free: nat)
    requires ValidateSegment(p, |file|)
    ensures var q := PlanSegment(p); var n := (q.readBytes + q.zeroBytes) / PGSIZE;
      && (q.readBytes + q.zeroBytes) % PGSIZE == 0 && q.memPage % PGSIZE == 0 && q.filePage % PGSIZE == 0
      && n == Layout(p).pageCount
      && (PhdrFits(pages, free, |file|, p) <==> SegmentFits(pages, free, |file|, q.filePage, q.memPage / PGSIZE, q.readBytes, n))
  {
    PlanLayout(p, |file|);
  }

  /** Whatever `load_segment` maps for an accepted PT_LOAD header, whether
      it succeeds or not, lies in user memory above page 0. */
  lemma SegmentPagesUser(file: seq<byte>, p: Phdr, before: PageMap, after: PageMap)
    requires ValidateSegment(p, |file|)
    requires var q := PlanSegment(p);
      Grown(before, after, file, q.filePage, q.memPage / PGSIZE, q.readBytes, (q.readBytes + q.zeroBytes) / PGSIZE, q.writable)
    ensures UserPagesAdded(before, after)
  {
    PlanLayout(p, |file|);
    PlanPagesUser(p, |file|);
  }

  /** A successful `load_segment` for an accepted PT_LOAD header: its image
      is mapped and its file part is inside the file. */
  lemma SegmentStep(file: seq<byte>, p: Phdr, before: PageMap, after: PageMap)
    requires p.ptype == PT_LOAD && ValidateSegment(p, |file|)
    requires var q := PlanSegment(p);
      after == before + SegmentImage(file, q.filePage, q.memPage / PGSIZE, q.readBytes, (q.readBytes + q.zeroBytes) / PGSIZE, q.writable)
    requires var q := PlanSegment(p); q.readBytes == 0 || q.filePage + q.readBytes <= |file|
    ensures after == before + PhdrImage(file, p)
    ensures SegmentLoaded(file, p, after)
  {
    PlanLayout(p, |file|);
    ValidateSegmentIff(p, |file|);
    SubmapUnion(before, PhdrImage(file, p));
  }

  /** Headers loaded stay loaded when pages are only added. */
  lemma HeadersLoadedGrow(file: seq<byte>, h: Ehdr, n: nat, before: PageMap, after: PageMap)
    requires HeadersLoaded(file, h, n, before) && Submap(before, after)
    ensures HeadersLoaded(file, h, n, after)
  {
    forall j | 0 <= j < n
      ensures HeaderLoaded(file, h, j, after)
    {
      HeaderLoadedGrows(file, h, j, before, after);
    }
  }

  /** Loading every program header means the executable is acceptable. */
  lemma AllHeadersAccepted(file: seq<byte>, pages: PageMap)
    requires CheckHeader(file).Some?
    requires HeadersLoaded(file, CheckHeader(file).value, CheckHeader(file).value.phnum, pages)
    ensures ElfAccepted(file)
  {
    var h := CheckHeader(file).value;
    forall i | 0 <= i < h.phnum
      ensures ReadPhdr(file, PhdrOffset(h, i)).Some? && PhdrAcceptable(ReadPhdr(file, PhdrOffset(h, i)).value, |file|)
    {
      assert HeaderLoaded(file, h, i, pages);
    }
  }

  /** Byte k of a segment lies on the page holding address p_vaddr + k, at
      that address's offset: the file byte at p_offset + k for the first
      p_filesz bytes, zero after them up to p_memsz. */
  lemma SegmentByteAt(file: seq<byte>, p: Phdr, k: nat)
    requires WellFormedSegment(p, |file|) && p.offset + p.filesz <= |file| && k < p.memsz
    ensures var a := p.vaddr + k;
      && a / PGSIZE in PhdrImage(file, p)
      && PhdrImage(file, p)[a / PGSIZE].data[a % PGSIZE] == if k < p.filesz then file[p.offset + k] else 0
  {
    var l := Layout(p);
    var d := p.vaddr % PGSIZE + k;
    assert p.vaddr + k == PGSIZE * l.firstPage + d;
    assert d < PGSIZE * l.pageCount;
    assert l.filePage + d == p.offset + k;
    ImageByteAt(file, l.filePage, l.firstPage, l.readBytes, l.pageCount, l.writable, d);
  }

  /** The byte d bytes into the pages of a segment image is the segment's byte d. */
  lemma ImageByteAt(file: seq<byte>, ofs: nat, upn: nat, readBytes: nat, count: nat, writable: bool, d: nat)
    requires d < PGSIZE * count
    ensures var a := PGSIZE * upn + d; var image := SegmentImage(file, ofs, upn, readBytes, count, writable);
      && a / PGSIZE in image
      && image[a / PGSIZE].data[a % PGSIZE] == SegmentByte(file, ofs, readBytes, d)
  {
    var a := PGSIZE * upn + d;
    PageOfAddress(a, upn, d);
    ImageByte(file, ofs, upn, readBytes, count, writable, d / PGSIZE, d % PGSIZE);
    assert PGSIZE * (d / PGSIZE) + d % PGSIZE == d;
  }

  /** Byte r of page j of a segment image is the segment's byte PGSIZE * j + r. */
  lemma ImageByte(file: seq<byte>, ofs: nat, upn: nat, readBytes: nat, count: nat, writable: bool,
                  j: nat, r: nat)
    requires j < count && r < PGSIZE
    ensures upn + j in SegmentImage(file, ofs, upn, readBytes, count, writable)
    ensures SegmentImage(file, ofs, upn, readBytes, count, writable)[upn + j].data[r]
            == SegmentByte(file, ofs, readBytes, PGSIZE * j + r)
  {
    var img := PageImage(file, ofs, readBytes, PGSIZE * j);
    assert SegmentImage(file, ofs, upn, readBytes, count, writable)[upn + j] == Frame(img, writable);
  }

  /** An address d bytes above page upn lies on page upn + d / PGSIZE at offset d % PGSIZE. */
  lemma PageOfAddress(a: nat, upn: nat, d: nat)
    requires a == PGSIZE * upn + d
    ensures a / PGSIZE == upn + d / PGSIZE && a % PGSIZE == d % PGSIZE
  {
    assert a == PGSIZE * (upn + d / PGSIZE) + d % PGSIZE;
  }

  /** The state of the loader: the page directory being filled and the
      number of pages left in the user pool. */
  class AddressSpace {
    var pages: PageMap
    var freePages: nat

    ghost predicate Valid()
      reads this
    {
      WellFormed(pages)
    }

    /** `pagedir_create`: an empty user address space over a pool of free pages. */
    constructor (free: nat)
      ensures Valid() && pages == map[] && freePages == free
    {
      pages := map[];
      freePages := free;
    }

    /** `palloc_get_page (PAL_USER)`: fails when the user pool is empty. */
    method AllocPage() returns (got: bool)
      modifies this`freePages
      ensures got <==> old(freePages) > 0
      ensures freePages == if got then old(freePages) - 1 else old(freePages)
    {
      got := freePages > 0;
      if got {
        freePages := freePages - 1;
      }
    }

    /** `palloc_free_page`. */
    method FreePage()
      modifies this`freePages
      ensures freePages == old(freePages) + 1
    {
      freePages := freePages + 1;
    }

    /** `install_page`: maps the page at address upage to kpage unless it is
        already mapped; no other mapping changes. */
    method InstallPage(upage: nat, kpage: seq<byte>, writable: bool) returns (ok: bool)
      requires Valid() && upage % PGSIZE == 0 && |kpage| == PGSIZE
      modifies this`pages
      ensures Valid()
      ensures ok <==> upage / PGSIZE !in old(pages)
      ensures pages == if ok then old(pages)[upage / PGSIZE := Frame(kpage, writable)] else old(pages)
    {
      ok := upage / PGSIZE !in pages;
      if ok {
        pages := pages[upage / PGSIZE := Frame(kpage, writable)];
      }
    }

    /** The loop of `load_segment` has loaded the first k of its n pages:
        the counters rb, zb, pos and up are where k turns leave them, the
        file part read so far lies inside the file, k pool pages are used,
        and the mapping is base plus the first k pages of the image. */
    ghost predicate SegmentProgress(file: seq<byte>, ofs: nat, upn: nat, readBytes: nat, n: nat, writable: bool,
                                    base: PageMap, free0: nat, k: nat, rb: nat, zb: nat, pos: nat, up: nat)
      reads this
    {
      && Valid()
      && Cursor(readBytes, ofs, upn, n, k, rb, zb, pos, up)
      && (readBytes - rb == 0 || pos <= |file|)
      && k <= free0 && freePages == free0 - k
      && Extends(pages, base, file, ofs, upn, readBytes, k, writable)
      && Unmapped(base, upn, k)
    }

    /** One iteration of the loop of `load_segment`, loading page k of a
        segment whose first page is number upn: compute the page's file part,
        get a user page, read that many bytes from the file position into it,
        zero the rest, map it at up, and advance the counters. It fails when
        the pool is empty, the read comes back short, or the page is already
        mapped, and then the segment did not fit and the mapping is as it was.
        On success the image holds one more page of the segment. */
    method LoadSegmentPage(file: seq<byte>, writable: bool, pos: nat, rb: nat, zb: nat, up: nat,
                           ghost ofs: nat, ghost upn: nat, ghost readBytes: nat, ghost n: nat,
                           ghost base: PageMap, ghost free0: nat, ghost k: nat)
      returns (ok: bool, pos': nat, rb': nat, zb': nat, up': nat)
      requires SegmentProgress(file, ofs, upn, readBytes, n, writable, base, free0, k, rb, zb, pos, up)
      requires rb > 0 || zb > 0
      modifies this
      ensures Valid()
      ensures ok ==> SegmentProgress(file, ofs, upn, readBytes, n, writable, base, free0, k + 1, rb', zb', pos', up')
      ensures !ok ==> !SegmentFits(base, free0, |file|, ofs, upn, readBytes, n)
                      && Grown(base, pages, file, ofs, upn, readBytes, n, writable)
    {
      var pageReadBytes := if rb < PGSIZE then rb else PGSIZE;
      var pageZeroBytes := PGSIZE - pageReadBytes;
      CursorNext(readBytes, ofs, upn, n, k, rb, zb, pos, up);
      PartialImage(base, pages, file, ofs, upn, readBytes, k, n, writable);
      pos', rb', zb', up' := pos, rb, zb, up;
      PageNumber(up, upn + k);
      var got := AllocPage();
      if !got {
        PageFailNoFit(base, pages, free0, old(freePages), file, ofs, upn, readBytes, n, k, pos, pageReadBytes, writable);
        return false, pos', rb', zb', up';
      }
      var chunk := FileRead(file, pos, pageReadBytes);
      if |chunk| != pageReadBytes {
        FreePage();
        PageFailNoFit(base, pages, free0, old(freePages), file, ofs, upn, readBytes, n, k, pos, pageReadBytes, writable);
        return false, pos', rb', zb', up';
      }
      var kpage := chunk + Zeros(pageZeroBytes);
      ghost var before := pages;
      ok := InstallPage(up, kpage, writable);
      if !ok {
        FreePage();
        PageFailNoFit(base, pages, free0, old(freePages), file, ofs, upn, readBytes, n, k, pos, pageReadBytes, writable);
        return false, pos', rb', zb', up';
      }
      PageLoaded(base, before, pages, file, ofs, upn, readBytes, k, up, pos, pageReadBytes, writable);
      pos', rb', zb', up' := pos + pageReadBytes, rb - pageReadBytes, zb - pageZeroBytes, up + PGSIZE;
    }

    /** `load_segment`: maps (readBytes + zeroBytes) / PGSIZE pages from upage
        on, the first readBytes bytes read from the file at ofs and the rest
        zeroed. It succeeds exactly when the segment fits; then the new pages
        are exactly the segment's image. On failure the pages already mapped
        stay mapped and nothing else changes. */
    method LoadSegment(file: seq<byte>, ofs: nat, upage: nat, readBytes: u32, zeroBytes: u32, writable: bool)
      returns (ok: bool)
      requires Valid()
      requires (readBytes + zeroBytes) % PGSIZE == 0 && upage % PGSIZE == 0 && ofs % PGSIZE == 0
      modifies this
      ensures Valid()
      ensures ok <==> SegmentFits(old(pages), old(freePages), |file|, ofs, upage / PGSIZE, readBytes,
                                  (readBytes + zeroBytes) / PGSIZE)
      ensures ok ==> pages == old(pages) + SegmentImage(file, ofs, upage / PGSIZE, readBytes,
                                                        (readBytes + zeroBytes) / PGSIZE, writable)
      ensures ok ==> freePages == old(freePages) - (readBytes + zeroBytes) / PGSIZE
      ensures Grown(old(pages), pages, file, ofs, upage / PGSIZE, readBytes, (readBytes + zeroBytes) / PGSIZE, writable)
    {
      ghost var upn := upage / PGSIZE;
      ghost var n := (readBytes + zeroBytes) / PGSIZE;
      var pos: nat := ofs;
      var rb: nat, zb: nat, up: nat := readBytes, zeroBytes, upage;
      ghost var k: nat := 0;
      CursorStart(readBytes, zeroBytes, ofs, upage);
      while rb > 0 || zb > 0
        invariant SegmentProgress(file, ofs, upn, readBytes, n, writable, old(pages), old(freePages), k, rb, zb, pos, up)
        decreases n - k
      {
        var loaded;
        loaded, pos, rb, zb, up := LoadSegmentPage(file, writable, pos, rb, zb, up,
                                                   ofs, upn, readBytes, n, old(pages), old(freePages), k);
        if !loaded {
          return false;
        }
        k := k + 1;
      }
      CursorEnd(readBytes, ofs, upn, n, k, pos, up);
      PartialImage(old(pages), pages, file, ofs, upn, readBytes, k, n, writable);
      ok := true;
    }

    /** `setup_stack`: maps a zeroed, writable page just below PHYS_BASE and
        starts the stack pointer at PHYS_BASE. */
    method SetupStack() returns (ok: bool, esp: nat)
      requires Valid()
      modifies this
      ensures Valid()
      ensures ok <==> old(freePages) > 0 && STACK_PN !in old(pages)
      ensures ok ==> pages == old(pages)[STACK_PN := Frame(Zeros(PGSIZE), true)]
                     && freePages == old(freePages) - 1 && esp == PHYS_BASE
      ensures !ok ==> pages == old(pages) && freePages == old(freePages)
    {
      esp := 0;
      var got := AllocPage();
      if !got {
        return false, esp;
      }
      ok := InstallPage(STACK_PAGE, Zeros(PGSIZE), true);
      if ok {
        esp := PHYS_BASE;
      } else {
        FreePage();
      }
    }

    /** The switch of `load` on one program header: PT_DYNAMIC, PT_INTERP
        and PT_SHLIB fail, a PT_LOAD segment must pass `validate_segment` and
        then `load_segment` with the plan of lines 372-391, anything else is
        skipped. It succeeds exactly when the header is acceptable and, for
        PT_LOAD, its pages fit; then the segment is loaded. Only user pages
        above page 0 are added, and only for PT_LOAD. */
    method LoadPhdr(file: seq<byte>, p: Phdr) returns (ok: bool)
      requires Valid()
      modifies this
      ensures Valid()
      ensures UserPagesAdded(old(pages), pages)
      ensures ok <==> PhdrAcceptable(p, |file|) && (p.ptype == PT_LOAD ==> PhdrFits(old(pages), old(freePages), |file|, p))
      ensures ok ==> SegmentLoaded(file, p, pages)
      ensures ok && p.ptype == PT_LOAD ==>
        pages == old(pages) + PhdrImage(file, p) && freePages == old(freePages) - Layout(p).pageCount
      ensures p.ptype != PT_LOAD ==> pages == old(pages) && freePages == old(freePages)
    {
      if p.ptype == PT_DYNAMIC || p.ptype == PT_INTERP || p.ptype == PT_SHLIB {
        return false;
      }
      if p.ptype != PT_LOAD {
        return true;
      }
      if !ValidateSegment(p, |file|) {
        return false;
      }
      var q := PlanSegment(p);
      PlanArguments(file, p, pages, freePages);
      ghost var before := pages;
      ok := LoadSegment(file, q.filePage, q.memPage, q.readBytes, q.zeroBytes, q.writable);
      SegmentPagesUser(file, p, before, pages);
      if ok {
        SegmentStep(file, p, before, pages);
      }
    }

    /** The first i program headers are read, accepted and loaded into the
        address space that was base with free0 pages free: every page added
        lies in the image of one of their PT_LOAD segments, and the pool has
        given up exactly those segments' pages. */
    ghost predicate LoadedUpTo(file: seq<byte>, h: Ehdr, i: nat, base: PageMap, free0: nat)
      reads this
    {
      && Valid()
      && HeadersLoaded(file, h, i, pages)
      && UserPagesAdded(base, pages)
      && (forall pn :: pn in pages && pn !in base ==> ImagePage(file, h, i, pn))
      && freePages + PagesUsed(file, h, i) == free0
    }

    /** One turn of the loop of `load` (process.c:349-399): read program
        header i at file_ofs and pass it through the switch on its type. On
        success one more header is loaded; whatever happens, only user pages
        above page 0 are added. */
    method LoadProgramHeader(file: seq<byte>, h: Ehdr, i: nat, fileOfs: int, ghost base: PageMap, ghost free0: nat)
      returns (ok: bool)
      requires fileOfs == PhdrOffset(h, i) && LoadedUpTo(file, h, i, base, free0)
      modifies this
      ensures Valid() && UserPagesAdded(base, pages)
      ensures ok <==> ReadPhdr(file, fileOfs).Some?
                      && var p := ReadPhdr(file, fileOfs).value;
                         PhdrAcceptable(p, |file|) && (p.ptype == PT_LOAD ==> PhdrFits(old(pages), old(freePages), |file|, p))
      ensures ok ==> LoadedUpTo(file, h, i + 1, base, free0)
    {
      if fileOfs < 0 || fileOfs > |file| {
        return false;
      }
      var ph := ParsePhdr(file[fileOfs..]);
      if ph.None? {
        return false;
      }
      var p := ph.value;
      assert ReadPhdr(file, PhdrOffset(h, i)) == Some(p);
      ghost var before, freeBefore := pages, freePages;
      ok := LoadPhdr(file, p);
      UserPagesTrans(base, before, pages);
      if ok {
        HeaderStep(file, h, i, before, pages);
        HeaderAdds(file, h, i, p, base, before, pages, free0, freeBefore, freePages);
      }
    }

    /** The end of `load` (process.c:402-407): once every program header is
        loaded, `setup_stack`. On success the stack page is added, and the
        pages added since base are the stack page and the PT_LOAD images. */
    method LoadStack(file: seq<byte>, h: Ehdr, ghost base: PageMap, ghost free0: nat) returns (ok: bool, esp: nat)
      requires CheckHeader(file) == Some(h) && LoadedUpTo(file, h, h.phnum, base, free0)
      modifies this
      ensures Valid() && UserPagesAdded(base, pages)
      ensures ok ==> ElfAccepted(file) && esp == PHYS_BASE
      ensures ok ==> HeadersLoaded(file, h, h.phnum, pages)
      ensures ok ==> STACK_PN in pages && pages[STACK_PN] == Frame(Zeros(PGSIZE), true)
      ensures ok ==> forall pn :: pn in pages && pn !in base ==> pn == STACK_PN || ImagePage(file, h, h.phnum, pn)
      ensures ok ==> freePages + PagesUsed(file, h, h.phnum) + 1 == free0
    {
      ghost var before := pages;
      ok, esp := SetupStack();
      if ok {
        StackAdds(file, h, h.phnum, base, before, pages);
        HeadersLoadedGrow(file, h, h.phnum, before, pages);
        AllHeadersAccepted(file, pages);
      }
      UserPagesTrans(base, before, pages);
    }

    /** `load`: reads and checks the executable header, then walks the
        program headers from e_phoff: an offset outside the file or a short
        read fails, PT_DYNAMIC, PT_INTERP and PT_SHLIB fail, a PT_LOAD segment
        must pass `validate_segment` and `load_segment`, anything else is
        skipped; finally it sets up the stack. On success the executable is
        acceptable, every PT_LOAD segment is mapped, the stack page is a zeroed
        writable page, and the entry point is e_entry. Whatever happens, the
        mapping only grows, by user pages above page 0. */
    method Load(file: seq<byte>) returns (r: LoadResult)
      requires Valid() && |file| < I32_LIMIT
      modifies this
      ensures Valid()
      ensures UserPagesAdded(old(pages), pages)
      ensures CheckHeader(file).None? ==> r == LoadFailed && pages == old(pages) && freePages == old(freePages)
      ensures r.Loaded? ==> ElfAccepted(file) && r.entry == CheckHeader(file).value.entry && r.esp == PHYS_BASE
      ensures r.Loaded? ==> HeadersLoaded(file, CheckHeader(file).value, CheckHeader(file).value.phnum, pages)
      ensures r.Loaded? ==> STACK_PN in pages && pages[STACK_PN] == Frame(Zeros(PGSIZE), true)
      ensures r.Loaded? ==> forall pn :: pn in pages && pn !in old(pages) ==>
        pn == STACK_PN || ImagePage(file, CheckHeader(file).value, CheckHeader(file).value.phnum, pn)
      ensures r.Loaded? ==> freePages + PagesUsed(file, CheckHeader(file).value, CheckHeader(file).value.phnum) + 1 == old(freePages)
    {
      var hdr := CheckHeader(file);
      if hdr.None? {
        return LoadFailed;
      }
      var h := hdr.value;
      var fileOfs: int := ToInt32(h.phoff);
      var i: nat := 0;
      while i < h.phnum
        invariant i <= h.phnum && fileOfs == PhdrOffset(h, i)
        invariant LoadedUpTo(file, h, i, old(pages), old(freePages))
      {
        var ok := LoadProgramHeader(file, h, i, fileOfs, old(pages), old(freePages));
        if !ok {
          return LoadFailed;
        }
        fileOfs := fileOfs + PHDR_SIZE;
        i := i + 1;
      }
      var ok, esp := LoadStack(file, h, old(pages), old(freePages));
      if !ok {
        return LoadFailed;
      }
      r := Loaded(h.entry, esp);
    }
  }
}
