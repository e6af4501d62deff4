/** The executable loader of project 2 (userprog/process.c: load,
    load_segment, setup_stack). The page directory of the new process is
    a map from user page to the installed page's bytes and writability;
    palloc's user pool is a count of free pages; the executable is the
    byte sequence of its file. */
module Loader {
  import opened Wrappers
  import opened Bytes
  import opened Vm
  import opened Elf

  /** An installed user page: its bytes and whether the user may write it. */
  datatype UserPage = UserPage(data: seq<byte>, writable: bool)

  /** What file_read delivers: n bytes from pos, fewer at the end of the
      file. */
  function FileBytes(file: seq<byte>, pos: nat, n: nat): (r: seq<byte>)
    ensures |r| == n <==> n == 0 || pos + n <= |file|
    ensures |r| <= n && (|r| > 0 ==> pos + |r| <= |file| && r == file[pos..pos + |r|])
  {
    if pos + n <= |file| then file[pos..pos + n] else if pos >= |file| then [] else file[pos..]
  }

  /** Page j of a segment whose first rb bytes come from the file at ofs:
      the page's share of the file bytes, then zeros. */
  function SegmentPage(file: seq<byte>, ofs: nat, rb: nat, writable: bool, j: nat): (p: UserPage)
    ensures |p.data| == PGSIZE
  {
    var pr := PageRead(rb, j);
    var got := FileBytes(file, ofs + Min(rb, j * PGSIZE), pr);
    UserPage(got + Zeros(PGSIZE - |got|), writable)
  }

  /** The user page j pages above upage. */
  function PageAt(upage: Addr, j: nat): Addr
  {
    upage + j * PGSIZE
  }

  /** The first m pages of a segment, at consecutive user pages from upage. */
  function SegmentPages(file: seq<byte>, ofs: nat, upage: Addr, rb: nat, writable: bool, m: nat): map<Addr, UserPage>
  {
    if m == 0 then map[]
    else SegmentPages(file, ofs, upage, rb, writable, m - 1)[PageAt(upage, m - 1) := SegmentPage(file, ofs, rb, writable, m - 1)]
  }

  /** A segment's first m pages are the user pages upage + j * PGSIZE,
      j < m, page j holding the segment's page j. */
  lemma {:induction false} SegmentPagesKeys(file: seq<byte>, ofs: nat, upage: Addr, rb: nat, writable: bool, m: nat)
    ensures forall a :: a in SegmentPages(file, ofs, upage, rb, writable, m) ==> upage <= a < PageAt(upage, m)
    ensures forall j :: 0 <= j < m ==> (PageAt(upage, j) in SegmentPages(file, ofs, upage, rb, writable, m)
      && SegmentPages(file, ofs, upage, rb, writable, m)[PageAt(upage, j)] == SegmentPage(file, ofs, rb, writable, j))
  {
    if m > 0 {
      SegmentPagesKeys(file, ofs, upage, rb, writable, m - 1);
      assert PageAt(upage, m - 1) < PageAt(upage, m);
      forall j | 0 <= j < m - 1
        ensures PageAt(upage, j) < PageAt(upage, m - 1)
      {
        assert j * PGSIZE < (m - 1) * PGSIZE;
      }
    }
  }

  /** The file holds the n bytes from ofs; nothing is asked of it for no
      bytes. */
  predicate FileHolds(file: seq<byte>, ofs: nat, n: nat)
  {
    n == 0 || ofs + n <= |file|
  }

  /** The first m pages of a segment can be loaded over pages and a pool of
      free pages: there are m free pages, the file holds their file bytes,
      and none of their user pages is mapped. */
  predicate SegmentFits(file: seq<byte>, ofs: nat, rb: nat, pages: map<Addr, UserPage>, free: nat, upage: Addr, m: nat)
  {
    m <= free && FileHolds(file, ofs, Min(rb, m * PGSIZE))
    && forall j :: 0 <= j < m ==> PageAt(upage, j) !in pages
  }

  /** Fitting is prefix-closed. */
  lemma FitsPrefix(file: seq<byte>, ofs: nat, rb: nat, pages: map<Addr, UserPage>, free: nat, upage: Addr, m: nat, n: nat)
    requires m <= n && SegmentFits(file, ofs, rb, pages, free, upage, n)
    ensures SegmentFits(file, ofs, rb, pages, free, upage, m)
  {
    assert m * PGSIZE <= n * PGSIZE;
  }

  /** The first m pages of a segment are loaded over pages0 and a pool of
      free0 pages. */
  predicate PartialLoad(file: seq<byte>, ofs: nat, upage: Addr, rb: nat, writable: bool,
                        pages0: map<Addr, UserPage>, free0: nat, pages: map<Addr, UserPage>, free: nat, m: nat)
  {
    SegmentFits(file, ofs, rb, pages0, free0, upage, m)
    && pages == pages0 + SegmentPages(file, ofs, upage, rb, writable, m)
    && free == free0 - m
  }

  /** What load_segment checks for page j decides whether j + 1 pages fit,
      and loading it extends the partial load by one page. */
  lemma PageStep(file: seq<byte>, ofs: nat, upage: Addr, rb: nat, writable: bool,
                 pages0: map<Addr, UserPage>, free0: nat, pages: map<Addr, UserPage>, free: nat, j: nat, pos: nat)
    requires upage % PGSIZE == 0 && pos == ofs + Min(rb, j * PGSIZE)
    requires PartialLoad(file, ofs, upage, rb, writable, pages0, free0, pages, free, j)
    ensures var pr := PageRead(rb, j);
      SegmentFits(file, ofs, rb, pages0, free0, upage, j + 1)
      <==> (free > 0 && |FileBytes(file, pos, pr)| == pr && PageAt(upage, j) !in pages)
    ensures var pr := PageRead(rb, j);
      SegmentFits(file, ofs, rb, pages0, free0, upage, j + 1) ==>
      PartialLoad(file, ofs, upage, rb, writable, pages0, free0,
        pages[PageAt(upage, j) := UserPage(FileBytes(file, pos, pr) + Zeros(PGSIZE - pr), writable)], free - 1, j + 1)
  {
    PageSpan(rb, j);
    SegmentStep(file, ofs, upage, rb, writable, j);
    var fits := SegmentFits(file, ofs, rb, pages0, free0, upage, j + 1);
    assert fits <==> PageAt(upage, j) !in pages0 && j < free0 && FileHolds(file, ofs, Min(rb, (j + 1) * PGSIZE));
    if fits {
      PageExtends(file, ofs, upage, rb, writable, pages0, free0, pages, free, j, pos);
    }
  }

  lemma PageExtends(file: seq<byte>, ofs: nat, upage: Addr, rb: nat, writable: bool,
                    pages0: map<Addr, UserPage>, free0: nat, pages: map<Addr, UserPage>, free: nat, j: nat, pos: nat)
    requires upage % PGSIZE == 0 && pos == ofs + Min(rb, j * PGSIZE)
    requires PartialLoad(file, ofs, upage, rb, writable, pages0, free0, pages, free, j)
    requires SegmentFits(file, ofs, rb, pages0, free0, upage, j + 1)
    ensures PartialLoad(file, ofs, upage, rb, writable, pages0, free0,
      pages[PageAt(upage, j) := UserPage(FileBytes(file, pos, PageRead(rb, j)) + Zeros(PGSIZE - PageRead(rb, j)), writable)],
      free - 1, j + 1)
  {
    var a := PageAt(upage, j);
    var v := SegmentPage(file, ofs, rb, writable, j);
    SegmentStep(file, ofs, upage, rb, writable, j);
    var sp := SegmentPages(file, ofs, upage, rb, writable, j);
    assert pages[a := v] == pages0 + sp[a := v];
  }

  /** The bytes of the first m pages of a segment, in address order. */
  function SegmentImage(file: seq<byte>, ofs: nat, rb: nat, m: nat): (img: seq<byte>)
    ensures |img| == m * PGSIZE
  {
    if m == 0 then [] else SegmentImage(file, ofs, rb, m - 1) + SegmentPage(file, ofs, rb, false, m - 1).data
  }

  /** The first m pages of a segment hold its first file bytes, up to
      rb, and then zeros; the file has those bytes. */
  ghost predicate ImageHolds(file: seq<byte>, ofs: nat, rb: nat, m: nat)
  {
    ofs + Min(rb, m * PGSIZE) <= |file|
    && SegmentImage(file, ofs, rb, m) == file[ofs..ofs + Min(rb, m * PGSIZE)] + Zeros(m * PGSIZE - Min(rb, m * PGSIZE))
  }

  /** With its file bytes all there, a segment's pages hold its rb file
      bytes and then zeros up to the end of its last page. */
  lemma {:induction false} SegmentImageIs(file: seq<byte>, ofs: nat, rb: nat, m: nat)
    requires ofs + Min(rb, m * PGSIZE) <= |file|
    ensures ImageHolds(file, ofs, rb, m)
  {
    if m > 0 {
      ImageReach(file, ofs, rb, m);
      SegmentImageIs(file, ofs, rb, m - 1);
      ImageExtend(file, ofs, rb, m);
    }
  }

  lemma ImageReach(file: seq<byte>, ofs: nat, rb: nat, m: nat)
    requires m > 0 && ofs + Min(rb, m * PGSIZE) <= |file|
    ensures ofs + Min(rb, (m - 1) * PGSIZE) <= |file|
  {
    assert (m - 1) * PGSIZE <= m * PGSIZE;
  }

  lemma ImageExtend(file: seq<byte>, ofs: nat, rb: nat, m: nat)
    requires m > 0 && ImageHolds(file, ofs, rb, m - 1) && ofs + Min(rb, m * PGSIZE) <= |file|
    ensures ImageHolds(file, ofs, rb, m)
  {
    var k := m - 1;
    var base := k * PGSIZE;
    assert m * PGSIZE == base + PGSIZE;
    SegmentImageStep(file, ofs, rb, k, base);
  }

  /** The induction step of SegmentImageIs, for page k at base. */
  lemma SegmentImageStep(file: seq<byte>, ofs: nat, rb: nat, k: nat, base: nat)
    requires base == k * PGSIZE && ofs + Min(rb, base + PGSIZE) <= |file|
    requires SegmentImage(file, ofs, rb, k) == file[ofs..ofs + Min(rb, base)] + Zeros(base - Min(rb, base))
    ensures SegmentImage(file, ofs, rb, k + 1)
      == file[ofs..ofs + Min(rb, base + PGSIZE)] + Zeros(base + PGSIZE - Min(rb, base + PGSIZE))
  {
    ImagePieces(file, ofs, rb, k, base);
    ImageStep(file, ofs, SegmentImage(file, ofs, rb, k), SegmentPage(file, ofs, rb, false, k).data,
      Min(rb, base), Min(rb, base + PGSIZE), base, PageRead(rb, k));
  }

  /** Page k at base in the terms ImageStep takes. */
  lemma ImagePieces(file: seq<byte>, ofs: nat, rb: nat, k: nat, base: nat)
    requires base == k * PGSIZE && ofs + Min(rb, base + PGSIZE) <= |file|
    ensures var lo, pr, hi := Min(rb, base), PageRead(rb, k), Min(rb, base + PGSIZE);
      lo <= base && lo + pr == hi && pr <= PGSIZE && (pr == 0 || lo == base)
      && SegmentPage(file, ofs, rb, false, k).data == file[ofs + lo..ofs + hi] + Zeros(PGSIZE - pr)
      && SegmentImage(file, ofs, rb, k + 1) == SegmentImage(file, ofs, rb, k) + SegmentPage(file, ofs, rb, false, k).data
  {
    PageShare(rb, k, base);
    SegmentPageData(file, ofs, rb, k, Min(rb, base), PageRead(rb, k));
  }

  /** Page k at base holds the file bytes from Min(rb, base) to
      Min(rb, base + PGSIZE): none, or a page that follows full ones. */
  lemma PageShare(rb: nat, k: nat, base: nat)
    requires base == k * PGSIZE
    ensures var lo, pr := Min(rb, base), PageRead(rb, k);
      lo <= base && lo + pr == Min(rb, base + PGSIZE) && (pr == 0 || lo == base)
  {
    PageSpan(rb, k);
  }

  /** Appending a page to the bytes before it: either the page holds no
      file bytes, or every page before it was full. */
  lemma ImageStep(file: seq<byte>, ofs: nat, prev: seq<byte>, page: seq<byte>, lo: nat, hi: nat, base: nat, pr: nat)
    requires lo <= base && lo + pr == hi && pr <= PGSIZE && ofs + hi <= |file| && (pr == 0 || lo == base)
    requires prev == file[ofs..ofs + lo] + Zeros(base - lo)
    requires page == file[ofs + lo..ofs + hi] + Zeros(PGSIZE - pr)
    ensures prev + page == file[ofs..ofs + hi] + Zeros(base + PGSIZE - hi)
  {
    if pr == 0 {
      assert file[ofs + lo..ofs + hi] == [];
      ZerosStep(file[ofs..ofs + lo], base - lo, [], PGSIZE);
    } else {
      FileStep(file, ofs, ofs + lo, ofs + hi, file[ofs + lo..ofs + hi], PGSIZE - pr);
    }
  }

  /** Page j of a segment whose file bytes are there. */
  lemma SegmentPageData(file: seq<byte>, ofs: nat, rb: nat, j: nat, lo: nat, pr: nat)
    requires lo == Min(rb, j * PGSIZE) && pr == PageRead(rb, j) && ofs + lo + pr <= |file|
    ensures SegmentPage(file, ofs, rb, false, j).data == file[ofs + lo..ofs + lo + pr] + Zeros(PGSIZE - pr)
  {
  }

  lemma ZerosStep(f: seq<byte>, z: nat, got: seq<byte>, z2: nat)
    requires got == [] && z2 == PGSIZE
    ensures f + Zeros(z) + got + Zeros(z2) == f + Zeros(z + PGSIZE)
  {
    assert Zeros(z) + Zeros(z2) == Zeros(z + PGSIZE);
    assert f + Zeros(z) + got == f + Zeros(z);
  }

  lemma FileStep(file: seq<byte>, a: nat, b: nat, c: nat, got: seq<byte>, z: nat)
    requires a <= b <= c <= |file| && got == file[b..c]
    ensures file[a..b] + Zeros(0) + got + Zeros(z) == file[a..c] + Zeros(z)
  {
    assert file[a..b] + Zeros(0) == file[a..b];
    assert file[a..b] + got == file[a..c];
  }

  /** Page j's share of rb file bytes, in the terms of the pages before
      and after it. */
  lemma PageSpan(rb: nat, j: nat)
    ensures (j + 1) * PGSIZE == j * PGSIZE + PGSIZE
    ensures Min(rb, j * PGSIZE) + PageRead(rb, j) == Min(rb, (j + 1) * PGSIZE)
    ensures Min(rb, j * PGSIZE) == rb ==> PageRead(rb, j) == 0 && Min(rb, (j + 1) * PGSIZE) == rb
    ensures Min(rb, j * PGSIZE) < rb ==> (Min(rb, j * PGSIZE) == j * PGSIZE
      && (j + 1) * PGSIZE - Min(rb, (j + 1) * PGSIZE) == PGSIZE - PageRead(rb, j))
  {
    PageReadShape(rb, j);
  }

  /** A PT_LOAD segment placed by load: its p_filesz bytes from p_offset
      at p_vaddr, and zeros from there to p_vaddr + p_memsz, as section
      2-2 of the TIS ELF Specification 1.2 defines a loadable segment's
      memory image. */
  lemma SegmentPlacesFile(file: seq<byte>, p: Phdr)
    requires PhdrFits(p) && p.offset % PGSIZE == p.vaddr % PGSIZE && p.filesz <= p.memsz
    requires p.offset + p.filesz <= |file|
    ensures var s := SegmentOf(p);
      var img := SegmentImage(file, s.filePage, s.readBytes, SegmentPageCount(s));
      var at := p.vaddr - s.memPage;
      at + p.memsz <= |img|
      && img[at..at + p.filesz] == file[p.offset..p.offset + p.filesz]
      && img[at + p.filesz..at + p.memsz] == Zeros(p.memsz - p.filesz)
  {
    var s := SegmentOf(p);
    SegmentOfPlaced(p);
    SegmentPlaces(file, s, p.vaddr - s.memPage, p.offset, p.filesz, p.memsz);
  }

  /** A segment whose page holds filesz bytes from file offset offset at
      byte at, and memsz bytes in all. */
  predicate PlacedAt(s: Segment, at: nat, offset: nat, filesz: nat, memsz: nat)
  {
    (s.readBytes + s.zeroBytes) % PGSIZE == 0 && filesz <= memsz
    && s.filePage + at == offset && s.readBytes == (if filesz == 0 then 0 else at + filesz)
    && at + memsz <= s.readBytes + s.zeroBytes
  }

  lemma SegmentOfPlaced(p: Phdr)
    requires PhdrFits(p) && p.offset % PGSIZE == p.vaddr % PGSIZE && p.filesz <= p.memsz
    ensures var s := SegmentOf(p); p.vaddr >= s.memPage && PlacedAt(s, p.vaddr - s.memPage, p.offset, p.filesz, p.memsz)
  {
  }

  /** SegmentPlacesFile for the segment of a header whose filesz bytes at
      offset sit at byte at of the segment's first page. */
  lemma SegmentPlaces(file: seq<byte>, s: Segment, at: nat, offset: nat, filesz: nat, memsz: nat)
    requires PlacedAt(s, at, offset, filesz, memsz) && offset + filesz <= |file|
    ensures var img := SegmentImage(file, s.filePage, s.readBytes, SegmentPageCount(s));
      at + memsz <= |img|
      && img[at..at + filesz] == file[offset..offset + filesz]
      && img[at + filesz..at + memsz] == Zeros(memsz - filesz)
  {
    SegmentImageOf(file, s);
    ImageSlices(file, s.filePage, s.readBytes, s.zeroBytes, at, filesz, memsz);
  }

  /** The pages load_segment fills for a segment whose file bytes are
      there hold its readBytes file bytes and then its zeroBytes zeros. */
  lemma SegmentImageOf(file: seq<byte>, s: Segment)
    requires (s.readBytes + s.zeroBytes) % PGSIZE == 0 && s.filePage + s.readBytes <= |file|
    ensures SegmentImage(file, s.filePage, s.readBytes, SegmentPageCount(s))
      == file[s.filePage..s.filePage + s.readBytes] + Zeros(s.zeroBytes)
  {
    var n := SegmentPageCount(s);
    PagesInExact(s.readBytes + s.zeroBytes);
    assert Min(s.readBytes, n * PGSIZE) == s.readBytes;
    var z := n * PGSIZE - Min(s.readBytes, n * PGSIZE);
    assert z == s.zeroBytes;
    SegmentImageIs(file, s.filePage, s.readBytes, n);
    assert SegmentImage(file, s.filePage, s.readBytes, n) == file[s.filePage..s.filePage + s.readBytes] + Zeros(z);
  }

  lemma PagesInExact(bytes: nat)
    requires bytes % PGSIZE == 0
    ensures PagesIn(bytes) * PGSIZE == bytes
  {
    PagesInDiv(bytes);
  }

  /** The slices of file bytes followed by zeros that SegmentPlacesFile
      reads off. */
  lemma ImageSlices(file: seq<byte>, fp: nat, rb: nat, zb: nat, at: nat, filesz: nat, memsz: nat)
    requires fp + rb <= |file| && fp + at + filesz <= |file| && filesz <= memsz && at + memsz <= rb + zb
    requires rb == if filesz == 0 then 0 else at + filesz
    ensures var img := file[fp..fp + rb] + Zeros(zb);
      img[at..at + filesz] == file[fp + at..fp + at + filesz]
      && img[at + filesz..at + memsz] == Zeros(memsz - filesz)
  {
    var f, z := file[fp..fp + rb], Zeros(zb);
    if filesz > 0 {
      SliceLeft(f, z, at, at + filesz);
      SliceRight(f, z, at + filesz, at + memsz);
      assert f[at..at + filesz] == file[fp + at..fp + at + filesz];
    } else {
      SliceRight(f, z, at, at + memsz);
    }
  }

  lemma SliceLeft<T>(f: seq<T>, z: seq<T>, a: nat, b: nat)
    requires a <= b <= |f|
    ensures (f + z)[a..b] == f[a..b]
  {
  }

  lemma SliceRight(f: seq<byte>, z: seq<byte>, a: nat, b: nat)
    requires |f| <= a <= b <= |f| + |z| && z == Zeros(|z|)
    ensures (f + z)[a..b] == Zeros(b - a)
  {
  }

  /** The number of pages load_segment maps for a segment. */
  function SegmentPageCount(s: Segment): nat
  {
    PagesIn(s.readBytes + s.zeroBytes)
  }

  /** A page directory with the segments loaded onto it, in order. */
  function PlanOnto(pages: map<Addr, UserPage>, file: seq<byte>, segs: seq<Segment>): map<Addr, UserPage>
  {
    if |segs| == 0 then pages
    else
      var s := segs[|segs| - 1];
      PlanOnto(pages, file, segs[..|segs| - 1])
      + SegmentPages(file, s.filePage, s.memPage, s.readBytes, s.writable, SegmentPageCount(s))
  }

  /** The number of pages the segments take. */
  function PlanSize(segs: seq<Segment>): nat
  {
    if |segs| == 0 then 0
    else
      var s := segs[|segs| - 1];
      PlanSize(segs[..|segs| - 1]) + SegmentPageCount(s)
  }

  /** The program header at file offset ofs, read in one go; None for an
      offset before the start or past the end of the file, or a short read. */
  function PhdrAt(file: seq<byte>, ofs: int): (r: Option<Phdr>)
    ensures r.Some? <==> 0 <= ofs && ofs + PHDR_SIZE <= |file|
  {
    if ofs < 0 || ofs > |file| || ofs + PHDR_SIZE > |file| then None
    else Some(DecodePhdr(file[ofs..ofs + PHDR_SIZE]))
  }

  /** The segments the first n program headers from start give, or None
      when one of them cannot be read, is of a refused type or is a
      PT_LOAD header validate_segment refuses. Other types are skipped. */
  function Plan(file: seq<byte>, start: int, n: nat): (r: Option<seq<Segment>>)
  {
    if n == 0 then Some([])
    else match Plan(file, start, n - 1)
      case None => None
      case Some(segs) =>
        match PhdrAt(file, start + (n - 1) * PHDR_SIZE)
        case None => None
        case Some(p) =>
          if Refused(p.ptype) then None
          else if p.ptype != PT_LOAD then Some(segs)
          else if ValidateSegment(p, |file|) then Some(segs + [SegmentOf(p)])
          else None
  }

  /** A segment load_segment can map: page-aligned in the file and in
      memory, a whole number of pages, from the second page up to
      PHYS_BASE. */
  predicate Placeable(s: Segment)
  {
    s.memPage % PGSIZE == 0 && s.filePage % PGSIZE == 0 && (s.readBytes + s.zeroBytes) % PGSIZE == 0
    && PGSIZE <= s.memPage && s.memPage + s.readBytes + s.zeroBytes <= PHYS_BASE
  }

  /** The PT_LOAD computation of a header validate_segment accepts. */
  lemma LoadablePlaceable(p: Phdr, fileLength: nat)
    requires PhdrFits(p) && Loadable32(p, fileLength)
    ensures Placeable(SegmentOf(p))
  {
    var s := SegmentOf(p);
    AlignedSum(s.memPage, s.readBytes + s.zeroBytes);
    AlignedBelow(s.memPage + s.readBytes + s.zeroBytes, PHYS_BASE);
    AlignedAbove(s.memPage, p.vaddr);
  }

  lemma AlignedSum(a: nat, b: nat)
    requires a % PGSIZE == 0 && b % PGSIZE == 0
    ensures (a + b) % PGSIZE == 0
  {
  }

  /** A page boundary less than a page past another is not past it. */
  lemma AlignedBelow(e: nat, b: nat)
    requires e % PGSIZE == 0 && b % PGSIZE == 0 && e < b + PGSIZE
    ensures e <= b
  {
  }

  /** The page boundary below an address from the second page up is not
      the first page. */
  lemma AlignedAbove(m: nat, v: nat)
    requires m % PGSIZE == 0 && m <= v < m + PGSIZE && PGSIZE <= v
    ensures PGSIZE <= m
  {
  }

  /** Every segment the plan gives is the PT_LOAD computation of a
      validated header, so it is placeable. */
  lemma {:induction false} PlanPlaceable(file: seq<byte>, start: int, n: nat)
    requires Plan(file, start, n).Some?
    ensures forall s :: s in Plan(file, start, n).value ==> Placeable(s)
  {
    if n > 0 {
      PlanPlaceable(file, start, n - 1);
      var p := PhdrAt(file, start + (n - 1) * PHDR_SIZE).value;
      if p.ptype == PT_LOAD {
        LoadablePlaceable(p, |file|);
      }
    }
  }

  /** off_t file_ofs = e_phoff: the 32-bit word read as a signed value. */
  function AsOffset(w: nat): int
  {
    if w < 0x8000_0000 then w else w - UINT32_LIMIT
  }

  /** The stack page setup_stack maps: the page just below PHYS_BASE. */
  const STACK_PAGE: Addr := PHYS_BASE - PGSIZE

  /** What load needs to succeed over a page directory and a pool of free
      pages: a header it accepts, program headers it accepts whose plan
      fits, and then a free page for the stack, whose page is not mapped. */
  ghost predicate LoadAccepts(file: seq<byte>, pages: map<Addr, UserPage>, free: nat)
  {
    ReadHeader(file).Some?
    && var h := ReadHeader(file).value;
    var plan := Plan(file, AsOffset(h.phoff), h.phnum);
    plan.Some? && PlanFits(pages, free, file, plan.value)
    && PlanSize(plan.value) < free && STACK_PAGE !in PlanOnto(pages, file, plan.value)
  }

  class AddressSpace {
    /** the process's page directory: each mapped user page with its page */
    var pages: map<Addr, UserPage>
    /** the free pages of palloc's user pool */
    var freePages: nat

    ghost predicate Valid()
      reads this
    {
      forall a :: a in pages ==> |pages[a].data| == PGSIZE
    }

    /** pagedir_create: an empty page directory over a pool of free pages. */
    constructor (free: nat)
      ensures Valid() && pages == map[] && freePages == free
    {
      pages := map[];
      freePages := free;
    }

    /** setup_stack: a zeroed writable page just below PHYS_BASE; the
        initial stack pointer is PHYS_BASE. None when the pool is empty
        or the page is already mapped. */
    method SetupStack() returns (esp: Option<Addr>)
      requires Valid()
      modifies this
      ensures Valid()
      ensures esp.Some? <==> old(freePages) > 0 && STACK_PAGE !in old(pages)
      ensures esp.Some? ==> (esp.value == PHYS_BASE && freePages == old(freePages) - 1
        && pages == old(pages)[STACK_PAGE := UserPage(Zeros(PGSIZE), true)])
      ensures esp.None? ==> pages == old(pages) && freePages == old(freePages)
    {
      if freePages == 0 {
        return None;
      }
      freePages := freePages - 1;
      if STACK_PAGE in pages {
        freePages := freePages + 1;
        return None;
      }
      pages := pages[STACK_PAGE := UserPage(Zeros(PGSIZE), true)];
      return Some(PHYS_BASE);
    }

    /** The program-header loop of load: header i is read from file offset
        e_phoff + 32 i; refused types and refused PT_LOAD headers end the
        load with false, other types are skipped, and each PT_LOAD segment
        is loaded as it is met. */
    method LoadSegments(file: seq<byte>, h: Ehdr) returns (ok: bool)
      requires Valid() && EhdrFits(h)
      modifies this
      ensures Valid()
      ensures ok ==> (Plan(file, AsOffset(h.phoff), h.phnum).Some?
        && PlanFits(old(pages), old(freePages), file, Plan(file, AsOffset(h.phoff), h.phnum).value)
        && pages == PlanOnto(old(pages), file, Plan(file, AsOffset(h.phoff), h.phnum).value)
        && freePages == old(freePages) - PlanSize(Plan(file, AsOffset(h.phoff), h.phnum).value))
      ensures (Plan(file, AsOffset(h.phoff), h.phnum).Some?
        && PlanFits(old(pages), old(freePages), file, Plan(file, AsOffset(h.phoff), h.phnum).value)) ==> ok
    {
      var fileOfs: int := AsOffset(h.phoff);
      var i := 0;
      ghost var segs: seq<Segment> := [];
      while i < h.phnum
        invariant 0 <= i <= h.phnum && fileOfs == AsOffset(h.phoff) + i * PHDR_SIZE && Valid()
        invariant LoadedSoFar(file, AsOffset(h.phoff), i, segs, old(pages), old(freePages), pages, freePages)
      {
        ghost var next;
        ok, next := LoadHeader(this, file, AsOffset(h.phoff), i, fileOfs, segs, old(pages), old(freePages));
        if !ok {
          PlanFitsEarlier(old(pages), old(freePages), file, AsOffset(h.phoff), i + 1, h.phnum);
          return false;
        }
        segs := next;
        fileOfs := fileOfs + PHDR_SIZE;
        i := i + 1;
      }
      return true;
    }

    /** load, once the page directory exists and the file is open: the
        header check, the segments, then the stack. The result is the entry
        point and the initial stack pointer. */
    method Load(file: seq<byte>) returns (r: Option<(nat, Addr)>)
      requires Valid()
      modifies this
      ensures Valid()
      ensures ReadHeader(file).None? ==> r.None? && pages == old(pages) && freePages == old(freePages)
      ensures r.Some? ==> (ReadHeader(file).Some?
        && var h := ReadHeader(file).value;
        var plan := Plan(file, AsOffset(h.phoff), h.phnum);
        plan.Some? && r.value == (h.entry, PHYS_BASE)
        && pages == PlanOnto(old(pages), file, plan.value)[STACK_PAGE := UserPage(Zeros(PGSIZE), true)])
      ensures r.Some? <==> LoadAccepts(file, old(pages), old(freePages))
    {
      var hd := ReadHeader(file);
      if hd.None? {
        return None;
      }
      var h := hd.value;
      var ok := LoadSegments(file, h);
      if !ok {
        return None;
      }
      var esp := SetupStack();
      if esp.None? {
        return None;
      }
      return Some((h.entry, esp.value));
    }
  }

  /** One more page of a segment: the pages so far and the next one. */
  lemma SegmentStep(file: seq<byte>, ofs: nat, upage: Addr, rb: nat, writable: bool, j: nat)
    ensures SegmentPages(file, ofs, upage, rb, writable, j + 1)
      == SegmentPages(file, ofs, upage, rb, writable, j)[PageAt(upage, j) := SegmentPage(file, ofs, rb, writable, j)]
    ensures PageAt(upage, j) !in SegmentPages(file, ofs, upage, rb, writable, j)
  {
    SegmentPagesKeys(file, ofs, upage, rb, writable, j);
  }

  /** One more segment in a plan. */
  lemma PlanSnoc(pages: map<Addr, UserPage>, file: seq<byte>, segs: seq<Segment>, s: Segment)
    ensures PlanOnto(pages, file, segs + [s])
      == PlanOnto(pages, file, segs) + SegmentPages(file, s.filePage, s.memPage, s.readBytes, s.writable, SegmentPageCount(s))
    ensures PlanSize(segs + [s]) == PlanSize(segs) + SegmentPageCount(s)
  {
    var t := segs + [s];
    assert |t| - 1 == |segs| && t[|t| - 1] == s && t[..|t| - 1] == segs;
  }

  /** Loading segment s onto the pages of plan segs gives the pages of
      segs + [s]. */
  lemma PlanExtends(pages0: map<Addr, UserPage>, free0: nat, file: seq<byte>, segs: seq<Segment>, s: Segment,
                    pages1: map<Addr, UserPage>, free1: nat, pages2: map<Addr, UserPage>, free2: nat)
    requires pages1 == PlanOnto(pages0, file, segs) && PlanSize(segs) <= free0 && free1 == free0 - PlanSize(segs)
    requires pages2 == pages1 + SegmentPages(file, s.filePage, s.memPage, s.readBytes, s.writable, PagesIn(s.readBytes + s.zeroBytes))
    requires PagesIn(s.readBytes + s.zeroBytes) <= free1 && free2 == free1 - PagesIn(s.readBytes + s.zeroBytes)
    ensures pages2 == PlanOnto(pages0, file, segs + [s])
    ensures PlanSize(segs + [s]) <= free0 && free2 == free0 - PlanSize(segs + [s])
  {
    PlanSnoc(pages0, file, segs, s);
  }

  /** The plan after one more header that is read and not refused. */
  lemma PlanNext(file: seq<byte>, start: int, i: nat, segs: seq<Segment>)
    requires Plan(file, start, i) == Some(segs)
    requires var p := PhdrAt(file, start + i * PHDR_SIZE);
      p.Some? && !Refused(p.value.ptype) && (p.value.ptype == PT_LOAD ==> ValidateSegment(p.value, |file|))
    ensures var p := PhdrAt(file, start + i * PHDR_SIZE).value;
      Plan(file, start, i + 1) == if p.ptype == PT_LOAD then Some(segs + [SegmentOf(p)]) else Some(segs)
  {
  }

  /** Every segment of the plan fits, in order, onto the pages the
      segments before it leave: enough free pages, the file bytes to read
      and none of its user pages mapped yet. */
  ghost predicate PlanFits(pages: map<Addr, UserPage>, free: nat, file: seq<byte>, segs: seq<Segment>)
    decreases |segs|
  {
    |segs| == 0 ||
    (var init, s := segs[..|segs| - 1], segs[|segs| - 1];
     PlanFits(pages, free, file, init) && PlanSize(init) <= free
     && SegmentFits(file, s.filePage, s.readBytes, PlanOnto(pages, file, init), free - PlanSize(init), s.memPage, SegmentPageCount(s)))
  }

  /** A plan with one more segment fits when the plan does and the
      segment fits onto what it leaves. */
  lemma PlanFitsSnoc(pages: map<Addr, UserPage>, free: nat, file: seq<byte>, segs: seq<Segment>, s: Segment)
    ensures PlanFits(pages, free, file, segs + [s]) <==>
      PlanFits(pages, free, file, segs) && PlanSize(segs) <= free
      && SegmentFits(file, s.filePage, s.readBytes, PlanOnto(pages, file, segs), free - PlanSize(segs), s.memPage, SegmentPageCount(s))
  {
    assert (segs + [s])[..|segs|] == segs;
  }

  /** Every prefix of a plan that fits fits. */
  lemma {:induction false} PlanFitsPrefix(pages: map<Addr, UserPage>, free: nat, file: seq<byte>, segs: seq<Segment>, k: nat)
    requires PlanFits(pages, free, file, segs) && k <= |segs|
    ensures PlanFits(pages, free, file, segs[..k])
    decreases |segs|
  {
    if k < |segs| {
      var init := segs[..|segs| - 1];
      PlanFitsPrefix(pages, free, file, init, k);
      assert init[..k] == segs[..k];
    } else {
      assert segs[..k] == segs;
    }
  }

  /** A prefix of a prefix is a prefix. */
  lemma PrefixTrans<T>(a: seq<T>, b: seq<T>, c: seq<T>)
    requires |a| <= |b| <= |c| && b[..|a|] == a && c[..|b|] == b
    ensures c[..|a|] == a
  {
    assert forall k :: 0 <= k < |a| ==> c[k] == b[k];
  }

  /** The plan of one header more extends the plan before it. */
  lemma PlanStep(file: seq<byte>, start: int, n: nat)
    requires n > 0 && Plan(file, start, n).Some?
    ensures Plan(file, start, n - 1).Some?
    ensures |Plan(file, start, n - 1).value| <= |Plan(file, start, n).value|
    ensures Plan(file, start, n).value[..|Plan(file, start, n - 1).value|] == Plan(file, start, n - 1).value
  {
    var b, c := Plan(file, start, n - 1).value, Plan(file, start, n).value;
    if c != b {
      assert c == b + [c[|c| - 1]];
      assert c[..|b|] == b;
    } else {
      assert c[..|b|] == b;
    }
  }

  /** The plan of the first i headers is a prefix of that of the first n. */
  lemma {:induction false} PlanGrows(file: seq<byte>, start: int, i: nat, n: nat)
    requires i <= n && Plan(file, start, n).Some?
    ensures Plan(file, start, i).Some?
    ensures |Plan(file, start, i).value| <= |Plan(file, start, n).value|
    ensures Plan(file, start, n).value[..|Plan(file, start, i).value|] == Plan(file, start, i).value
  {
    if i < n {
      PlanStep(file, start, n);
      PlanGrows(file, start, i, n - 1);
      PrefixTrans(Plan(file, start, i).value, Plan(file, start, n - 1).value, Plan(file, start, n).value);
    } else {
      assert Plan(file, start, n).value[..|Plan(file, start, n).value|] == Plan(file, start, n).value;
    }
  }

  /** When the plan of the first n headers is accepted and fits, so is
      that of the first i. */
  lemma PlanFitsEarlier(pages: map<Addr, UserPage>, free: nat, file: seq<byte>, start: int, i: nat, n: nat)
    requires i <= n
    ensures Plan(file, start, n).Some? && PlanFits(pages, free, file, Plan(file, start, n).value) ==>
      Plan(file, start, i).Some? && PlanFits(pages, free, file, Plan(file, start, i).value)
  {
    if Plan(file, start, n).Some? && PlanFits(pages, free, file, Plan(file, start, n).value) {
      PlanGrows(file, start, i, n);
      PlanFitsPrefix(pages, free, file, Plan(file, start, n).value, |Plan(file, start, i).value|);
    }
  }

  /** The first i program headers from start are loaded over pages0 and
      a pool of free0 pages, giving the plan segs, which fits. */
  ghost predicate LoadedSoFar(file: seq<byte>, start: int, i: nat, segs: seq<Segment>,
                              pages0: map<Addr, UserPage>, free0: nat, pages: map<Addr, UserPage>, free: nat)
  {
    Plan(file, start, i) == Some(segs) && PlanFits(pages0, free0, file, segs)
    && pages == PlanOnto(pages0, file, segs)
    && PlanSize(segs) <= free0 && free == free0 - PlanSize(segs)
  }

  /** One page of load_segment's loop: a page from the user pool, pageRead
      bytes read into it from pos with zeros after them, installed at
      upage. On no free page, a short read or upage already mapped the
      page goes back to the pool and nothing changes. */
  method LoadPage(space: AddressSpace, file: seq<byte>, pos: nat, upage: Addr, pageRead: nat, writable: bool)
    returns (ok: bool)
    requires space.Valid() && pageRead <= PGSIZE
    modifies space
    ensures space.Valid()
    ensures ok <==> (old(space.freePages) > 0 && |FileBytes(file, pos, pageRead)| == pageRead
      && upage !in old(space.pages))
    ensures ok ==> (space.freePages == old(space.freePages) - 1
      && space.pages == old(space.pages)[upage := UserPage(FileBytes(file, pos, pageRead) + Zeros(PGSIZE - pageRead), writable)])
    ensures !ok ==> space.pages == old(space.pages) && space.freePages == old(space.freePages)
  {
    if space.freePages == 0 {
      return false;
    }
    space.freePages := space.freePages - 1;
    var got := FileBytes(file, pos, pageRead);
    if |got| != pageRead {
      space.freePages := space.freePages + 1;
      return false;
    }
    if upage in space.pages {
      space.freePages := space.freePages + 1;
      return false;
    }
    space.pages := space.pages[upage := UserPage(got + Zeros(PGSIZE - pageRead), writable)];
    return true;
  }

  /** One iteration of load_segment's loop: page j of the segment, whose
      file bytes start at pos. */
  method LoadSegmentPage(space: AddressSpace, file: seq<byte>, ofs: nat, upage: Addr, readBytes: nat, writable: bool,
                         ghost pages0: map<Addr, UserPage>, ghost free0: nat, ghost j: nat, pos: nat, page: Addr, pageRead: nat)
    returns (ok: bool)
    requires space.Valid() && upage % PGSIZE == 0 && pos == ofs + Min(readBytes, j * PGSIZE)
    requires page == PageAt(upage, j) && pageRead == PageRead(readBytes, j)
    requires PartialLoad(file, ofs, upage, readBytes, writable, pages0, free0, space.pages, space.freePages, j)
    modifies space
    ensures space.Valid()
    ensures ok ==> (SegmentFits(file, ofs, readBytes, pages0, free0, upage, j + 1)
      && PartialLoad(file, ofs, upage, readBytes, writable, pages0, free0, space.pages, space.freePages, j + 1))
    ensures !ok ==> (!SegmentFits(file, ofs, readBytes, pages0, free0, upage, j + 1)
      && space.pages == old(space.pages) && space.freePages == old(space.freePages))
  {
    PageStep(file, ofs, upage, readBytes, writable, pages0, free0, space.pages, space.freePages, j, pos);
    ok := LoadPage(space, file, pos, page, pageRead, writable);
  }

  /** load_segment: (readBytes + zeroBytes) / PGSIZE pages from upage,
      each with min(remaining, PGSIZE) file bytes read from the file
      position (which starts at ofs), zeros for the rest, mapped with
      the segment's writability. It stops with false at the first page
      with no free page, a short read or a user page already mapped,
      giving back that page and keeping the pages before it. */
  method LoadSegment(space: AddressSpace, file: seq<byte>, ofs: nat, upage: Addr, readBytes: nat, zeroBytes: nat, writable: bool)
    returns (ok: bool)
    requires space.Valid() && (readBytes + zeroBytes) % PGSIZE == 0 && upage % PGSIZE == 0 && ofs % PGSIZE == 0
    modifies space
    ensures space.Valid()
    ensures ok ==> SegmentFits(file, ofs, readBytes, old(space.pages), old(space.freePages), upage, PagesIn(readBytes + zeroBytes))
    ensures !ok ==> ! SegmentFits(file, ofs, readBytes, old(space.pages), old(space.freePages), upage, PagesIn(readBytes + zeroBytes))
    ensures ok ==> (space.pages == old(space.pages) + SegmentPages(file, ofs, upage, readBytes, writable, PagesIn(readBytes + zeroBytes))
      && space.freePages == old(space.freePages) - PagesIn(readBytes + zeroBytes))
    ensures !ok ==> exists m :: (0 <= m < PagesIn(readBytes + zeroBytes)
      && PartialLoad(file, ofs, upage, readBytes, writable, old(space.pages), old(space.freePages), space.pages, space.freePages, m)
      && !SegmentFits(file, ofs, readBytes, old(space.pages), old(space.freePages), upage, m + 1))
  {
    var rb: nat := readBytes;
    var zb: nat := zeroBytes;
    var page := upage;
    var pos := ofs;
    ghost var j: nat := 0;
    while rb > 0 || zb > 0
      invariant j * PGSIZE + rb + zb == readBytes + zeroBytes
      invariant rb == readBytes - Min(readBytes, j * PGSIZE) && pos == ofs + Min(readBytes, j * PGSIZE)
      invariant page == PageAt(upage, j)
      invariant PartialLoad(file, ofs, upage, readBytes, writable, old(space.pages), old(space.freePages), space.pages, space.freePages, j)
      invariant space.Valid()
      decreases rb + zb
    {
      LazyStep(readBytes, zeroBytes, j, rb, zb);
      var pageRead := if rb < PGSIZE then rb else PGSIZE;
      var pageZero := PGSIZE - pageRead;
      var installed := LoadSegmentPage(space, file, ofs, upage, readBytes, writable, old(space.pages), old(space.freePages), j, pos, page, pageRead);
      if !installed {
        ghost var n := PagesIn(readBytes + zeroBytes);
        if SegmentFits(file, ofs, readBytes, old(space.pages), old(space.freePages), upage, n) {
          FitsPrefix(file, ofs, readBytes, old(space.pages), old(space.freePages), upage, j + 1, n);
        }
        return false;
      }
      pos := pos + pageRead;
      rb := rb - pageRead;
      zb := zb - pageZero;
      page := page + PGSIZE;
      j := j + 1;
    }
    PagesOfTotal(readBytes + zeroBytes, j);
    return true;
  }

  /** A PT_LOAD header: validate_segment, then load_segment for the
      segment it describes, which extends the plan segs the pages so far
      are loaded from. */
  method LoadPlanned(space: AddressSpace, file: seq<byte>, p: Phdr, ghost segs: seq<Segment>,
                     ghost pages0: map<Addr, UserPage>, ghost free0: nat)
    returns (ok: bool)
    requires space.Valid() && PhdrFits(p)
    requires space.pages == PlanOnto(pages0, file, segs) && PlanSize(segs) <= free0 && space.freePages == free0 - PlanSize(segs)
    modifies space
    ensures space.Valid()
    ensures !ValidateSegment(p, |file|) ==> !ok && space.pages == old(space.pages) && space.freePages == old(space.freePages)
    ensures ok ==> (ValidateSegment(p, |file|)
      && var next := segs + [SegmentOf(p)];
      space.pages == PlanOnto(pages0, file, next) && PlanSize(next) <= free0 && space.freePages == free0 - PlanSize(next))
    ensures ValidateSegment(p, |file|) ==> var s := SegmentOf(p);
      (ok <==> SegmentFits(file, s.filePage, s.readBytes, old(space.pages), old(space.freePages), s.memPage, SegmentPageCount(s)))
  {
    if !ValidateSegment(p, |file|) {
      return false;
    }
    var s := SegmentOf(p);
    ok := LoadPlacedSegment(space, file, s, segs, pages0, free0);
  }

  /** load_segment for a segment whose offsets and size are page-aligned,
      extending the plan segs the pages so far are loaded from. */
  method LoadPlacedSegment(space: AddressSpace, file: seq<byte>, s: Segment, ghost segs: seq<Segment>,
                           ghost pages0: map<Addr, UserPage>, ghost free0: nat)
    returns (ok: bool)
    requires space.Valid() && s.filePage % PGSIZE == 0 && s.memPage % PGSIZE == 0 && (s.readBytes + s.zeroBytes) % PGSIZE == 0
    requires space.pages == PlanOnto(pages0, file, segs) && PlanSize(segs) <= free0 && space.freePages == free0 - PlanSize(segs)
    modifies space
    ensures space.Valid()
    ensures ok ==> (space.pages == PlanOnto(pages0, file, segs + [s])
      && PlanSize(segs + [s]) <= free0 && space.freePages == free0 - PlanSize(segs + [s]))
    ensures ok <==> SegmentFits(file, s.filePage, s.readBytes, old(space.pages), old(space.freePages), s.memPage, SegmentPageCount(s))
  {
    ok := LoadSegment(space, file, s.filePage, s.memPage, s.readBytes, s.zeroBytes, s.writable);
    if ok {
      PlanExtends(pages0, free0, file, segs, s, old(space.pages), old(space.freePages), space.pages, space.freePages);
    }
  }

  /** One iteration of load's program-header loop: header i, at fileOfs. */
  method LoadHeader(space: AddressSpace, file: seq<byte>, start: int, i: nat, fileOfs: int, ghost segs: seq<Segment>,
                    ghost pages0: map<Addr, UserPage>, ghost free0: nat)
    returns (ok: bool, ghost next: seq<Segment>)
    requires space.Valid() && fileOfs == start + i * PHDR_SIZE
    requires LoadedSoFar(file, start, i, segs, pages0, free0, space.pages, space.freePages)
    modifies space
    ensures space.Valid()
    ensures ok ==> LoadedSoFar(file, start, i + 1, next, pages0, free0, space.pages, space.freePages)
    ensures !ok ==> Plan(file, start, i + 1).None? || !PlanFits(pages0, free0, file, Plan(file, start, i + 1).value)
  {
    next := segs;
    var ph := PhdrAt(file, fileOfs);
    if ph.None? {
      return false, next;
    }
    var p := ph.value;
    if p.ptype == PT_DYNAMIC || p.ptype == PT_INTERP || p.ptype == PT_SHLIB {
      return false, next;
    } else if p.ptype == PT_LOAD {
      var loaded := LoadPlanned(space, file, p, segs, pages0, free0);
      if ValidateSegment(p, |file|) {
        PlanFitsSnoc(pages0, free0, file, segs, SegmentOf(p));
      }
      if !loaded {
        return false, next;
      }
      next := segs + [SegmentOf(p)];
    }
    PlanNext(file, start, i, segs);
    return true, next;
  }
}
