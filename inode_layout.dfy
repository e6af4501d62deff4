/** The on-disk layout of an inode of project 4 (filesys/inode.h,
    filesys/inode.c): a header sector holding 123 direct sector numbers,
    one indirect and one doubly indirect sector number, the length, the
    directory flag and the magic number; index sectors holding 128 sector
    numbers each. Every sector number is a 32-bit word stored least
    significant byte first; 0 in a pointer slot means "not allocated". */
module InodeLayout {
  import opened Bytes
  import opened Block
  import Elf

  /** N_DIRECT_BLOCKS, N_INDIRECT_BLOCKS, N_LEVEL0/1/2 (filesys/inode.h) */
  const N_DIRECT: nat := 123
  const N_INDIRECT: nat := 128
  const N_LEVEL0: nat := 123
  const N_LEVEL1: nat := 251
  const N_LEVEL2: nat := 16635
  /** The header's pointer slots: the direct ones, then the indirect
      and doubly indirect pointers. */
  const N_BLOCKS: nat := 125
  const INDIRECT_SLOT: nat := 123
  const DOUBLY_SLOT: nat := 124

  /** INODE_MAGIC */
  const INODE_MAGIC: nat := 0x494e_4f44

  /** (block_sector_t) -1 */
  const NO_SECTOR: Sector := 0xFFFF_FFFF

  const WORD_LIMIT: nat := 0x1_0000_0000

  /** struct inode_disk: blocks[0..123) are the direct pointers,
      blocks[123] the indirect and blocks[124] the doubly indirect one. */
  datatype InodeDisk = InodeDisk(blocks: seq<Sector>, length: int, isDir: bool, magic: nat)

  /** A header whose fields fit their C types. */
  ghost predicate HeaderFits(h: InodeDisk)
  {
    && |h.blocks| == N_BLOCKS
    && (forall i :: 0 <= i < N_BLOCKS ==> h.blocks[i] < WORD_LIMIT)
    && -0x8000_0000 <= h.length < 0x8000_0000
    && h.magic < WORD_LIMIT
  }

  // ---------------------------------------------------------------------
  // Words

  /** Consecutive 32-bit words, least significant byte first. */
  function WordsBytes(ws: seq<nat>): (b: seq<byte>)
    ensures |b| == 4 * |ws|
  {
    if ws == [] then [] else Elf.Encode(ws[0], 4) + WordsBytes(ws[1..])
  }

  /** The words of b, four bytes each; a trailing part word is dropped. */
  function WordsOf(b: seq<byte>): (ws: seq<nat>)
    ensures 4 * |ws| <= |b| < 4 * |ws| + 4
    ensures forall i :: 0 <= i < |ws| ==> ws[i] < WORD_LIMIT
  {
    if |b| < 4 then []
    else
      Elf.LittleEndianBound(b[..4]);
      [Elf.LittleEndian(b[..4])] + WordsOf(b[4..])
  }

  lemma {:induction false} WordsRoundTrip(ws: seq<nat>)
    requires forall i :: 0 <= i < |ws| ==> ws[i] < WORD_LIMIT
    ensures WordsOf(WordsBytes(ws)) == ws
  {
    if ws != [] {
      var b := WordsBytes(ws);
      assert Elf.Pow256(4) == WORD_LIMIT;
      Elf.DecodeEncode(ws[0], 4);
      assert b[..4] == Elf.Encode(ws[0], 4);
      assert b[4..] == WordsBytes(ws[1..]);
      WordsRoundTrip(ws[1..]);
    }
  }

  lemma {:induction false} ZeroWord(b: seq<byte>)
    requires forall i :: 0 <= i < |b| ==> b[i] == 0
    ensures Elf.LittleEndian(b) == 0
  {
    if b != [] {
      ZeroWord(b[1..]);
    }
  }

  /** A zero-filled sector holds zero words only. */
  lemma {:induction false} WordsOfZeros(n: nat)
    ensures forall i :: 0 <= i < |WordsOf(Zeros(n))| ==> WordsOf(Zeros(n))[i] == 0
  {
    if n >= 4 {
      var z := Zeros(n);
      assert z[..4] == [0, 0, 0, 0];
      assert z[4..] == Zeros(n - 4);
      ZeroWord(z[..4]);
      assert WordsOf(z) == [0] + WordsOf(Zeros(n - 4));
      WordsOfZeros(n - 4);
    }
  }

  // ---------------------------------------------------------------------
  // Index sectors: struct indirect_inode_disk

  /** The 128 sector numbers an index sector holds. */
  function IndexOf(b: seq<byte>): (ws: seq<Sector>)
    requires |b| == SECTOR_SIZE
    ensures |ws| == N_INDIRECT
    ensures forall i :: 0 <= i < N_INDIRECT ==> ws[i] < WORD_LIMIT
  {
    WordsOf(b)
  }

  /** The sector holding 128 sector numbers. */
  function IndexBytes(ws: seq<Sector>): (b: seq<byte>)
    requires |ws| == N_INDIRECT
    ensures |b| == SECTOR_SIZE
  {
    WordsBytes(ws)
  }

  /** Writing an index sector and reading it back gives its entries. */
  lemma IndexRoundTrip(ws: seq<Sector>)
    requires |ws| == N_INDIRECT && forall i :: 0 <= i < N_INDIRECT ==> ws[i] < WORD_LIMIT
    ensures IndexOf(IndexBytes(ws)) == ws
  {
    WordsRoundTrip(ws);
  }

  /** A zero-filled index sector points nowhere. */
  lemma IndexOfZeros()
    ensures forall i :: 0 <= i < N_INDIRECT ==> IndexOf(Zeros(SECTOR_SIZE))[i] == 0
  {
    WordsOfZeros(SECTOR_SIZE);
  }

  /** Entry i of the index sector s on the disk. */
  function Entry(d: Disk, s: Sector, i: nat): Sector
    requires Sectors(d) && i < N_INDIRECT
  {
    IndexOf(ReadSector(d, s))[i]
  }

  // ---------------------------------------------------------------------
  // The header sector

  /** The off_t length field: a 32-bit two's complement word. */
  function SignedWord(v: nat): int
  {
    if v < 0x8000_0000 then v else v - WORD_LIMIT
  }

  function EncodeInode(h: InodeDisk): (b: seq<byte>)
    requires |h.blocks| == N_BLOCKS
    ensures |b| == SECTOR_SIZE
  {
    WordsBytes(h.blocks)
      + Elf.Encode(h.length % WORD_LIMIT, 4)
      + [if h.isDir then 1 else 0, 0, 0, 0]
      + Elf.Encode(h.magic, 4)
  }

  function DecodeInode(b: seq<byte>): (h: InodeDisk)
    requires |b| == SECTOR_SIZE
    ensures |h.blocks| == N_BLOCKS
  {
    InodeDisk(WordsOf(b[..500]), SignedWord(Elf.LittleEndian(b[500..504])),
              b[504] != 0, Elf.LittleEndian(b[508..512]))
  }

  /** What inode_create or inode_write_at writes, inode_open reads
      back. */
  lemma InodeRoundTrip(h: InodeDisk)
    requires HeaderFits(h)
    ensures DecodeInode(EncodeInode(h)) == h
  {
    var b := EncodeInode(h);
    assert b[..500] == WordsBytes(h.blocks);
    WordsRoundTrip(h.blocks);
    assert b[500..504] == Elf.Encode(h.length % WORD_LIMIT, 4);
    assert Elf.Pow256(4) == WORD_LIMIT;
    Elf.DecodeEncode(h.length % WORD_LIMIT, 4);
    assert b[508..512] == Elf.Encode(h.magic, 4);
    Elf.DecodeEncode(h.magic, 4);
  }

  // ---------------------------------------------------------------------
  // From byte offsets to sectors

  /** bytes_to_sectors: DIV_ROUND_UP (size, BLOCK_SECTOR_SIZE). */
  function BytesToSectors(size: int): (n: nat)
    requires size >= 0
    ensures SECTOR_SIZE * n >= size && SECTOR_SIZE * n < size + SECTOR_SIZE
  {
    (size + SECTOR_SIZE - 1) / SECTOR_SIZE
  }

  /** index_to_sector: the sector holding data sector number idx of the
      file, through the direct, indirect or doubly indirect pointers. */
  function IndexToSector(d: Disk, h: InodeDisk, idx: nat): (s: Sector)
    requires Sectors(d) && |h.blocks| == N_BLOCKS
    ensures idx >= N_LEVEL2 ==> s == NO_SECTOR
  {
    if idx < N_LEVEL0 then h.blocks[idx]
    else if idx < N_LEVEL1 then Entry(d, h.blocks[INDIRECT_SLOT], idx - N_LEVEL0)
    else if idx < N_LEVEL2 then
      Entry(d, Entry(d, h.blocks[DOUBLY_SLOT], (idx - N_LEVEL1) / N_INDIRECT), (idx - N_LEVEL1) % N_INDIRECT)
    else NO_SECTOR
  }

  /** byte_to_sector: NO_SECTOR outside [0, length). */
  function ByteToSector(d: Disk, h: InodeDisk, pos: int): (s: Sector)
    requires Sectors(d) && |h.blocks| == N_BLOCKS
    ensures pos < 0 || pos >= h.length ==> s == NO_SECTOR
    ensures 0 <= pos < h.length ==> s == IndexToSector(d, h, pos / SECTOR_SIZE)
  {
    if pos < 0 || pos >= h.length then NO_SECTOR else IndexToSector(d, h, pos / SECTOR_SIZE)
  }

  /** The place with which a data sector number is reached: the second
      level index j and the slot i in the sector it names. */
  lemma DoublySplit(idx: nat)
    requires N_LEVEL1 <= idx < N_LEVEL2
    ensures var j, i := (idx - N_LEVEL1) / N_INDIRECT, (idx - N_LEVEL1) % N_INDIRECT;
      j < N_INDIRECT && i < N_INDIRECT && idx == N_LEVEL1 + N_INDIRECT * j + i
  {
  }

  /** Conversely, every doubly indirect place is reached by exactly one
      data sector number. */
  lemma DoublyPlace(j: nat, i: nat)
    requires j < N_INDIRECT && i < N_INDIRECT
    ensures var idx := N_LEVEL1 + N_INDIRECT * j + i;
      N_LEVEL1 <= idx < N_LEVEL2
      && (idx - N_LEVEL1) / N_INDIRECT == j && (idx - N_LEVEL1) % N_INDIRECT == i
  {
  }
}
