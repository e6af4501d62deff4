/** The ELF structures the user-program loader reads (userprog/process.c),
    as the TIS Executable and Linking Format Specification 1.2 lays them
    out: the executable header of Book I pages 1-4 to 1-8, the program
    header of Book I pages 2-2 to 2-4, and the least-significant-byte-first
    field encoding of an ELFDATA2LSB file, which is also how file_read
    fills the C structures on the 80386. */
module Elf {
  import opened Wrappers
  import opened Bytes
  import opened Vm

  /** 256 to the n. */
  function Pow256(n: nat): (r: nat)
    ensures r > 0
  {
    if n == 0 then 1 else 256 * Pow256(n - 1)
  }

  /** The value of a field stored least significant byte first. */
  function LittleEndian(b: seq<byte>): (v: nat)
  {
    if |b| == 0 then 0 else b[0] as nat + 256 * LittleEndian(b[1..])
  }

  /** The n-byte field holding v, least significant byte first. */
  function Encode(v: nat, n: nat): (b: seq<byte>)
    ensures |b| == n
  {
    if n == 0 then [] else [(v % 256) as byte] + Encode(v / 256, n - 1)
  }

  /** An n-byte field holds values below 256^n. */
  lemma {:induction false} LittleEndianBound(b: seq<byte>)
    ensures LittleEndian(b) < Pow256(|b|)
  {
    if |b| > 0 {
      LittleEndianBound(b[1..]);
    }
  }

  /** Decoding an encoded field gives its value back. */
  lemma {:induction false} DecodeEncode(v: nat, n: nat)
    requires v < Pow256(n)
    ensures LittleEndian(Encode(v, n)) == v
  {
    if n > 0 {
      DecodeEncode(v / 256, n - 1);
    }
  }

  /** Encoding a decoded field gives its bytes back. */
  lemma {:induction false} EncodeDecode(b: seq<byte>)
    ensures Encode(LittleEndian(b), |b|) == b
  {
    if |b| > 0 {
      EncodeDecode(b[1..]);
      var v := LittleEndian(b);
      DigitSplit(b[0] as nat, LittleEndian(b[1..]));
      assert Encode(v, |b|) == [b[0]] + b[1..];
    }
  }

  /** The low byte and the rest of a + 256 * q. */
  lemma DigitSplit(a: nat, q: nat)
    requires a < 256
    ensures (a + 256 * q) % 256 == a && (a + 256 * q) / 256 == q
  {
  }

  /** Elf32_Half and Elf32_Word: two and four bytes. */
  const HALF: nat := 2
  const WORD: nat := 4

  /** sizeof (struct Elf32_Ehdr) and sizeof (struct Elf32_Phdr) */
  const EHDR_SIZE: nat := 52
  const PHDR_SIZE: nat := 32

  /** e_ident indexes and values, Book I pages 1-5 to 1-7. */
  const EI_MAG0: nat := 0
  const EI_MAG1: nat := 1
  const EI_MAG2: nat := 2
  const EI_MAG3: nat := 3
  const EI_CLASS: nat := 4
  const EI_DATA: nat := 5
  const EI_VERSION: nat := 6
  const EI_NIDENT: nat := 16
  const ELFCLASS32: byte := 1
  const ELFDATA2LSB: byte := 1
  /** e_type ET_EXEC, e_machine EM_386 and EV_CURRENT, Book I page 1-4. */
  const ET_EXEC: nat := 2
  const EM_386: nat := 3
  const EV_CURRENT: nat := 1

  /** The most program headers load accepts. */
  const MAX_PHNUM: nat := 1024

  /** struct Elf32_Ehdr */
  datatype Ehdr = Ehdr(ident: seq<byte>, etype: nat, machine: nat, version: nat, entry: nat,
                       phoff: nat, shoff: nat, flags: nat, ehsize: nat, phentsize: nat,
                       phnum: nat, shentsize: nat, shnum: nat, shstrndx: nat)

  /** Every field fits its width. */
  predicate EhdrFits(h: Ehdr)
  {
    |h.ident| == EI_NIDENT
    && h.etype < Pow256(HALF) && h.machine < Pow256(HALF) && h.version < Pow256(WORD)
    && h.entry < Pow256(WORD) && h.phoff < Pow256(WORD) && h.shoff < Pow256(WORD)
    && h.flags < Pow256(WORD) && h.ehsize < Pow256(HALF) && h.phentsize < Pow256(HALF)
    && h.phnum < Pow256(HALF) && h.shentsize < Pow256(HALF) && h.shnum < Pow256(HALF)
    && h.shstrndx < Pow256(HALF)
  }

  /** The header a 52-byte block holds, field by field in declaration
      order. */
  function DecodeEhdr(b: seq<byte>): (h: Ehdr)
    requires |b| == EHDR_SIZE
    ensures EhdrFits(h)
  {
    LittleEndianBound(b[16..18]); LittleEndianBound(b[18..20]); LittleEndianBound(b[20..24]);
    LittleEndianBound(b[24..28]); LittleEndianBound(b[28..32]); LittleEndianBound(b[32..36]);
    LittleEndianBound(b[36..40]); LittleEndianBound(b[40..42]); LittleEndianBound(b[42..44]);
    LittleEndianBound(b[44..46]); LittleEndianBound(b[46..48]); LittleEndianBound(b[48..50]);
    LittleEndianBound(b[50..52]);
    Ehdr(b[..16], LittleEndian(b[16..18]), LittleEndian(b[18..20]), LittleEndian(b[20..24]),
         LittleEndian(b[24..28]), LittleEndian(b[28..32]), LittleEndian(b[32..36]),
         LittleEndian(b[36..40]), LittleEndian(b[40..42]), LittleEndian(b[42..44]),
         LittleEndian(b[44..46]), LittleEndian(b[46..48]), LittleEndian(b[48..50]),
         LittleEndian(b[50..52]))
  }

  /** The 52 bytes of a header. */
  function EncodeEhdr(h: Ehdr): (b: seq<byte>)
    requires EhdrFits(h)
    ensures |b| == EHDR_SIZE
  {
    h.ident + Encode(h.etype, HALF) + Encode(h.machine, HALF) + Encode(h.version, WORD)
    + Encode(h.entry, WORD) + Encode(h.phoff, WORD) + Encode(h.shoff, WORD) + Encode(h.flags, WORD)
    + Encode(h.ehsize, HALF) + Encode(h.phentsize, HALF) + Encode(h.phnum, HALF)
    + Encode(h.shentsize, HALF) + Encode(h.shnum, HALF) + Encode(h.shstrndx, HALF)
  }

  /** Reading a written header gives it back. */
  lemma EhdrRoundTrip(h: Ehdr)
    requires EhdrFits(h)
    ensures DecodeEhdr(EncodeEhdr(h)) == h
  {
    var b := EncodeEhdr(h);
    assert b[..16] == h.ident;
    assert b[16..18] == Encode(h.etype, HALF) && b[18..20] == Encode(h.machine, HALF);
    assert b[20..24] == Encode(h.version, WORD) && b[24..28] == Encode(h.entry, WORD);
    assert b[28..32] == Encode(h.phoff, WORD) && b[32..36] == Encode(h.shoff, WORD);
    assert b[36..40] == Encode(h.flags, WORD) && b[40..42] == Encode(h.ehsize, HALF);
    assert b[42..44] == Encode(h.phentsize, HALF) && b[44..46] == Encode(h.phnum, HALF);
    assert b[46..48] == Encode(h.shentsize, HALF) && b[48..50] == Encode(h.shnum, HALF);
    assert b[50..52] == Encode(h.shstrndx, HALF);
    DecodeEncode(h.etype, HALF); DecodeEncode(h.machine, HALF); DecodeEncode(h.version, WORD);
    DecodeEncode(h.entry, WORD); DecodeEncode(h.phoff, WORD); DecodeEncode(h.shoff, WORD);
    DecodeEncode(h.flags, WORD); DecodeEncode(h.ehsize, HALF); DecodeEncode(h.phentsize, HALF);
    DecodeEncode(h.phnum, HALF); DecodeEncode(h.shentsize, HALF); DecodeEncode(h.shnum, HALF);
    DecodeEncode(h.shstrndx, HALF);
  }

  /** Writing a read header gives the bytes back. */
  lemma EhdrBytesRoundTrip(b: seq<byte>)
    requires |b| == EHDR_SIZE
    ensures EncodeEhdr(DecodeEhdr(b)) == b
  {
    EncodeDecode(b[16..18]); EncodeDecode(b[18..20]); EncodeDecode(b[20..24]);
    EncodeDecode(b[24..28]); EncodeDecode(b[28..32]); EncodeDecode(b[32..36]);
    EncodeDecode(b[36..40]); EncodeDecode(b[40..42]); EncodeDecode(b[42..44]);
    EncodeDecode(b[44..46]); EncodeDecode(b[46..48]); EncodeDecode(b[48..50]);
    EncodeDecode(b[50..52]);
    assert b == b[..16] + b[16..18] + b[18..20] + b[20..24] + b[24..28] + b[28..32] + b[32..36]
      + b[36..40] + b[40..42] + b[42..44] + b[44..46] + b[46..48] + b[48..50] + b[50..52];
  }

  /** What load asks of the executable header, in the terms of the
      standard: the ELF magic number, a 32-bit object with
      least-significant-byte-first data of the current version, an
      executable file for the Intel 80386, program headers the size of
      Elf32_Phdr and at most 1024 of them. */
  predicate Loadable(h: Ehdr)
  {
    |h.ident| == EI_NIDENT
    && h.ident[EI_MAG0] == 0x7f && h.ident[EI_MAG1] == 'E' as byte
    && h.ident[EI_MAG2] == 'L' as byte && h.ident[EI_MAG3] == 'F' as byte
    && h.ident[EI_CLASS] == ELFCLASS32 && h.ident[EI_DATA] == ELFDATA2LSB
    && h.ident[EI_VERSION] == EV_CURRENT as byte
    && h.etype == ET_EXEC && h.machine == EM_386 && h.version == EV_CURRENT
    && h.phentsize == PHDR_SIZE && h.phnum <= MAX_PHNUM
  }

  /** The header check of load: the first 52 bytes of the file, read in
      one go, against the seven-byte prefix "\177ELF\1\1\1" and the field
      tests. None stands for a short read or a failed test. */
  function ReadHeader(file: seq<byte>): (r: Option<Ehdr>)
    ensures r.Some? <==> |file| >= EHDR_SIZE && Loadable(DecodeEhdr(file[..EHDR_SIZE]))
    ensures r.Some? ==> EhdrFits(r.value) && EncodeEhdr(r.value) == file[..EHDR_SIZE]
  {
    if |file| < EHDR_SIZE then None
    else
      var h := DecodeEhdr(file[..EHDR_SIZE]);
      EhdrBytesRoundTrip(file[..EHDR_SIZE]);
      HeaderTestLoadable(h);
      if !HeaderTest(h) then None else Some(h)
  }

  /** load's tests on the header, as it writes them. */
  predicate HeaderTest(h: Ehdr)
    requires |h.ident| == EI_NIDENT
  {
    h.ident[..7] == [0x7f, 0x45, 0x4c, 0x46, 1, 1, 1] && h.etype == 2 && h.machine == 3
    && h.version == 1 && h.phentsize == PHDR_SIZE && h.phnum <= 1024
  }

  lemma HeaderTestLoadable(h: Ehdr)
    requires |h.ident| == EI_NIDENT
    ensures HeaderTest(h) <==> Loadable(h)
  {
    var m: seq<byte> := [0x7f, 0x45, 0x4c, 0x46, 1, 1, 1];
    if Loadable(h) {
      assert forall i :: 0 <= i < 7 ==> h.ident[..7][i] == m[i];
    }
  }

  /** struct Elf32_Phdr */
  datatype Phdr = Phdr(ptype: nat, offset: nat, vaddr: nat, paddr: nat, filesz: nat, memsz: nat,
                       flags: nat, align: nat)

  predicate PhdrFits(p: Phdr)
  {
    p.ptype < Pow256(WORD) && p.offset < Pow256(WORD) && p.vaddr < Pow256(WORD)
    && p.paddr < Pow256(WORD) && p.filesz < Pow256(WORD) && p.memsz < Pow256(WORD)
    && p.flags < Pow256(WORD) && p.align < Pow256(WORD)
  }

  /** The program header a 32-byte block holds. */
  function DecodePhdr(b: seq<byte>): (p: Phdr)
    requires |b| == PHDR_SIZE
    ensures PhdrFits(p)
  {
    LittleEndianBound(b[0..4]); LittleEndianBound(b[4..8]); LittleEndianBound(b[8..12]);
    LittleEndianBound(b[12..16]); LittleEndianBound(b[16..20]); LittleEndianBound(b[20..24]);
    LittleEndianBound(b[24..28]); LittleEndianBound(b[28..32]);
    Phdr(LittleEndian(b[0..4]), LittleEndian(b[4..8]), LittleEndian(b[8..12]), LittleEndian(b[12..16]),
         LittleEndian(b[16..20]), LittleEndian(b[20..24]), LittleEndian(b[24..28]), LittleEndian(b[28..32]))
  }

  /** The 32 bytes of a program header. */
  function EncodePhdr(p: Phdr): (b: seq<byte>)
    requires PhdrFits(p)
    ensures |b| == PHDR_SIZE
  {
    Encode(p.ptype, WORD) + Encode(p.offset, WORD) + Encode(p.vaddr, WORD) + Encode(p.paddr, WORD)
    + Encode(p.filesz, WORD) + Encode(p.memsz, WORD) + Encode(p.flags, WORD) + Encode(p.align, WORD)
  }

  /** Reading a written program header gives it back. */
  lemma PhdrRoundTrip(p: Phdr)
    requires PhdrFits(p)
    ensures DecodePhdr(EncodePhdr(p)) == p
  {
    var b := EncodePhdr(p);
    assert b[0..4] == Encode(p.ptype, WORD) && b[4..8] == Encode(p.offset, WORD);
    assert b[8..12] == Encode(p.vaddr, WORD) && b[12..16] == Encode(p.paddr, WORD);
    assert b[16..20] == Encode(p.filesz, WORD) && b[20..24] == Encode(p.memsz, WORD);
    assert b[24..28] == Encode(p.flags, WORD) && b[28..32] == Encode(p.align, WORD);
    DecodeEncode(p.ptype, WORD); DecodeEncode(p.offset, WORD); DecodeEncode(p.vaddr, WORD);
    DecodeEncode(p.paddr, WORD); DecodeEncode(p.filesz, WORD); DecodeEncode(p.memsz, WORD);
    DecodeEncode(p.flags, WORD); DecodeEncode(p.align, WORD);
  }

  /** p_type values, Book I page 2-3, and the p_flags write bit. */
  const PT_NULL: nat := 0
  const PT_LOAD: nat := 1
  const PT_DYNAMIC: nat := 2
  const PT_INTERP: nat := 3
  const PT_NOTE: nat := 4
  const PT_SHLIB: nat := 5
  const PT_PHDR: nat := 6
  const PT_STACK: nat := 0x6474_e551

  /** The three segment types load refuses: a dynamically linked image. */
  predicate Refused(ptype: nat)
  {
    ptype == PT_DYNAMIC || ptype == PT_INTERP || ptype == PT_SHLIB
  }

  /** What validate_segment accepts, in unbounded arithmetic: the file
      offset and the address share their page offset, the offset lies
      within the file, the image is not empty and not shorter than its
      file part, and it lies wholly in user space above page 0. */
  predicate Loadable32(p: Phdr, fileLength: nat)
  {
    p.offset % PGSIZE == p.vaddr % PGSIZE && p.offset <= fileLength
    && p.filesz <= p.memsz && p.memsz != 0
    && PGSIZE <= p.vaddr && p.vaddr + p.memsz < PHYS_BASE
  }

  /** validate_segment, with the 32-bit address sum of the source: the
      sum is tested against PHYS_BASE and for wrap-around separately. */
  function ValidateSegment(p: Phdr, fileLength: nat): (ok: bool)
    requires PhdrFits(p)
    ensures ok <==> Loadable32(p, fileLength)
  {
    var endAddr := (p.vaddr + p.memsz) % UINT32_LIMIT;
    if p.offset % PGSIZE != p.vaddr % PGSIZE then false
    else if p.offset > fileLength then false
    else if p.memsz < p.filesz then false
    else if p.memsz == 0 then false
    else if IsKernelAddr(p.vaddr) then false
    else if IsKernelAddr(endAddr) then false
    else if endAddr < p.vaddr then false
    else if p.vaddr < PGSIZE then false
    else true
  }

  /** ROUND_UP (x, PGSIZE) */
  function RoundUp(x: nat): (r: nat)
    ensures r % PGSIZE == 0 && x <= r < x + PGSIZE
  {
    (x + PGSIZE - 1) / PGSIZE * PGSIZE
  }

  /** What load hands to load_segment for one PT_LOAD header. */
  datatype Segment = Segment(filePage: nat, memPage: Addr, readBytes: nat, zeroBytes: nat, writable: bool)

  /** The PF_W bit of p_flags. */
  predicate WritableFlag(flags: nat)
  {
    (flags / 2) % 2 == 1
  }

  /** The PT_LOAD computation of load for a validated header. */
  function SegmentOf(p: Phdr): (s: Segment)
    requires PhdrFits(p) && p.offset % PGSIZE == p.vaddr % PGSIZE && p.filesz <= p.memsz
    ensures s.filePage % PGSIZE == 0 && s.memPage % PGSIZE == 0 && (s.readBytes + s.zeroBytes) % PGSIZE == 0
    ensures s.memPage <= p.vaddr < s.memPage + PGSIZE && s.filePage + (p.vaddr - s.memPage) == p.offset
    ensures s.readBytes == if p.filesz == 0 then 0 else p.vaddr - s.memPage + p.filesz
    ensures p.vaddr + p.memsz <= s.memPage + s.readBytes + s.zeroBytes < p.vaddr + p.memsz + PGSIZE
    ensures s.writable == WritableFlag(p.flags)
  {
    var filePage := p.offset - p.offset % PGSIZE;
    var memPage := p.vaddr - p.vaddr % PGSIZE;
    var pageOffset := p.vaddr % PGSIZE;
    if p.filesz > 0 then
      var readBytes := pageOffset + p.filesz;
      Segment(filePage, memPage, readBytes, RoundUp(pageOffset + p.memsz) - readBytes, WritableFlag(p.flags))
    else
      Segment(filePage, memPage, 0, RoundUp(pageOffset + p.memsz), WritableFlag(p.flags))
  }
}
