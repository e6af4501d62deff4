/** The bytes of an inode (filesys/inode.c, inode_read_at and
    inode_write_at): the data sectors of its tree, in file order, of
    which the first length bytes are the file. Every byte of the
    allocated sectors past the length is zero, as do_inode_create zero
    fills each sector it takes and a write only touches bytes it then
    counts in the length. */
module InodeData {
  import opened Bytes
  import opened Block
  import opened InodeLayout
  import opened InodeTree
  import opened InodeGrow

  /** The bytes of the first m data sectors of t. */
  ghost function Image(d: Disk, t: Tree, m: nat): (b: seq<byte>)
    requires Sectors(d) && Shaped(t) && m <= N_LEVEL2
    ensures |b| == SECTOR_SIZE * m
  {
    if m == 0 then [] else Image(d, t, m - 1) + ReadSector(d, t.data[m - 1])
  }

  /** The inode at sector hdr, whose header in memory is h, stores the
      tree t of p data sectors, holds its length bytes in them and reads
      as zeros past its length. */
  ghost predicate Sound(dev: Dev, hdr: Sector, h: InodeDisk, t: Tree, p: nat)
  {
    && Ready(dev, h, t, p, hdr)
    && 0 <= h.length <= SECTOR_SIZE * p && h.length < 0x8000_0000
    && Image(dev.disk, t, p)[h.length..] == Zeros(SECTOR_SIZE * p - h.length)
  }

  /** The header h and the disk d store the tree t of p data sectors,
      which hold length bytes. */
  ghost predicate Laid(d: Disk, h: InodeDisk, t: Tree, p: nat)
  {
    Stored(d, h, t) && Filled(t, p) && 0 <= h.length <= SECTOR_SIZE * p
  }

  /** The file as it reads: its first length bytes. */
  ghost function Content(dev: Dev, hdr: Sector, h: InodeDisk, t: Tree, p: nat): (c: seq<byte>)
    requires Sound(dev, hdr, h, t, p)
    ensures |c| == h.length
  {
    Image(dev.disk, t, p)[..h.length]
  }

  // ---------------------------------------------------------------------
  // Image lemmas

  lemma {:induction false} ImagePrefix(d: Disk, t: Tree, m: nat, m': nat)
    requires Sectors(d) && Shaped(t) && m <= m' <= N_LEVEL2
    ensures Image(d, t, m')[..SECTOR_SIZE * m] == Image(d, t, m)
    decreases m'
  {
    if m < m' {
      ImagePrefix(d, t, m, m' - 1);
      assert Image(d, t, m')[..SECTOR_SIZE * (m' - 1)] == Image(d, t, m' - 1);
    }
  }

  /** Data sector k fills bytes 512 k .. 512 k + 511. */
  lemma ImageSector(d: Disk, t: Tree, m: nat, k: nat)
    requires Sectors(d) && Shaped(t) && k < m <= N_LEVEL2
    ensures Image(d, t, m)[SECTOR_SIZE * k .. SECTOR_SIZE * k + SECTOR_SIZE] == ReadSector(d, t.data[k])
  {
    ImagePrefix(d, t, k + 1, m);
    assert Image(d, t, k + 1) == Image(d, t, k) + ReadSector(d, t.data[k]);
  }

  /** The image depends only on what the data sectors hold. */
  lemma {:induction false} ImageSame(d: Disk, d': Disk, t: Tree, m: nat)
    requires Sectors(d) && Sectors(d') && Shaped(t) && m <= N_LEVEL2
    requires forall i :: 0 <= i < m ==> ReadSector(d', t.data[i]) == ReadSector(d, t.data[i])
    ensures Image(d', t, m) == Image(d, t, m)
  {
    if m > 0 {
      ImageSame(d, d', t, m - 1);
    }
  }

  /** Writing the last of the first m data sectors, which no other of
      them shares, replaces the last bytes of the image. */
  lemma ImageWriteLast(d: Disk, t: Tree, m: nat, b: seq<byte>)
    requires Sectors(d) && Shaped(t) && 0 < m <= N_LEVEL2 && |b| == SECTOR_SIZE
    requires forall i :: 0 <= i < m - 1 ==> t.data[i] != t.data[m - 1]
    ensures Image(WriteSector(d, t.data[m - 1], b), t, m) == Image(d, t, m - 1) + b
  {
    ImageSame(d, WriteSector(d, t.data[m - 1], b), t, m - 1);
  }

  /** Writing data sector k replaces its bytes in the image, the data
      sectors being distinct. */
  lemma {:induction false} ImageWrite(d: Disk, t: Tree, m: nat, k: nat, b: seq<byte>)
    requires Sectors(d) && Shaped(t) && k < m <= N_LEVEL2 && |b| == SECTOR_SIZE
    requires forall i :: 0 <= i < m && i != k ==> t.data[i] != t.data[k]
    ensures var im := Image(d, t, m);
      Image(WriteSector(d, t.data[k], b), t, m)
        == im[..SECTOR_SIZE * k] + b + im[SECTOR_SIZE * k + SECTOR_SIZE..]
  {
    var im := Image(d, t, m - 1);
    var r := ReadSector(d, t.data[m - 1]);
    var lo := SECTOR_SIZE * k;
    assert Image(d, t, m) == im + r;
    if k == m - 1 {
      ImageWriteLast(d, t, m, b);
      assert (im + r)[..lo] == im;
      assert (im + r)[lo + SECTOR_SIZE..] == [];
    } else {
      var d' := WriteSector(d, t.data[k], b);
      assert Image(d', t, m) == Image(d', t, m - 1) + ReadSector(d', t.data[m - 1]);
      ImageWrite(d, t, m - 1, k, b);
      ImageStep(im, r, lo, b);
    }
  }

  /** Splicing b into im at lo commutes with appending r. */
  lemma ImageStep(im: seq<byte>, r: seq<byte>, lo: nat, b: seq<byte>)
    requires lo + |b| <= |im|
    ensures (im + r)[..lo] + b + (im + r)[lo + |b|..] == im[..lo] + b + im[lo + |b|..] + r
  {
    assert (im + r)[..lo] == im[..lo];
    assert (im + r)[lo + |b|..] == im[lo + |b|..] + r;
  }

  /** A growth keeps the image of the old data sectors and appends the
      zeros of the new ones. */
  lemma {:induction false} ImageGrown(dev: Dev, t: Tree, p: nat, dev': Dev, t': Tree, p': nat, hdr: Sector, q: nat)
    requires DevOk(dev) && Owned(t, hdr, dev.free)
    requires Grown(dev, t, p, dev', t', p', hdr) && p <= q <= p'
    ensures Image(dev'.disk, t', q) == Image(dev.disk, t, p) + Zeros(SECTOR_SIZE * (q - p))
    decreases q
  {
    if q == p {
      forall i | 0 <= i < p
        ensures ReadSector(dev'.disk, t'.data[i]) == ReadSector(dev.disk, t.data[i])
      {
        assert Flat(t)[i] == t.data[i];
        NotMeta(t, hdr, dev.free, t.data[i]);
      }
      ImageSame(dev.disk, dev'.disk, t, p);
      ImageTrees(dev'.disk, t, t', p);
    } else {
      ImageGrown(dev, t, p, dev', t', p', hdr, q - 1);
      assert Zeros(SECTOR_SIZE * (q - 1 - p)) + Zeros(SECTOR_SIZE) == Zeros(SECTOR_SIZE * (q - p));
    }
  }

  /** Two trees with the same first m data sectors have the same image. */
  lemma {:induction false} ImageTrees(d: Disk, t: Tree, t': Tree, m: nat)
    requires Sectors(d) && Shaped(t) && Shaped(t') && m <= N_LEVEL2
    requires forall i :: 0 <= i < m ==> t'.data[i] == t.data[i]
    ensures Image(d, t', m) == Image(d, t, m)
  {
    if m > 0 {
      ImageTrees(d, t, t', m - 1);
    }
  }

  // ---------------------------------------------------------------------
  // Offsets

  /** Byte pos lies at offset pos % 512 of file sector pos / 512. */
  lemma Split(pos: nat)
    ensures pos == SECTOR_SIZE * (pos / SECTOR_SIZE) + pos % SECTOR_SIZE
    ensures pos % SECTOR_SIZE < SECTOR_SIZE
  {
  }

  /** byte_to_sector inside the file names a data sector of the tree. */
  lemma SectorAt(d: Disk, h: InodeDisk, t: Tree, p: nat, pos: int)
    requires Stored(d, h, t) && Filled(t, p) && 0 <= pos < h.length <= SECTOR_SIZE * p
    ensures pos / SECTOR_SIZE < p && ByteToSector(d, h, pos) == t.data[pos / SECTOR_SIZE]
  {
    Split(pos);
    IndexToSectorTree(d, h, t, pos / SECTOR_SIZE);
  }

  /** The sector byte_to_sector names for byte pos holds the image's
      bytes from pos to the end of that sector. */
  lemma ChunkBytes(d: Disk, h: InodeDisk, t: Tree, p: nat, pos: nat, n: nat)
    requires Stored(d, h, t) && Filled(t, p) && h.length <= SECTOR_SIZE * p
    requires 0 < n && pos % SECTOR_SIZE + n <= SECTOR_SIZE && pos + n <= h.length
    ensures var ofs := pos % SECTOR_SIZE;
      ReadSector(d, ByteToSector(d, h, pos))[ofs .. ofs + n] == Image(d, t, p)[pos .. pos + n]
  {
    SectorAt(d, h, t, p, pos);
    Split(pos);
    ImageChunk(d, t, p, pos / SECTOR_SIZE, pos % SECTOR_SIZE, n);
  }

  /** Bytes ofs .. ofs + n of data sector k are those of the image at
      512 k + ofs. */
  lemma ImageChunk(d: Disk, t: Tree, p: nat, k: nat, ofs: nat, n: nat)
    requires Sectors(d) && Shaped(t) && k < p <= N_LEVEL2 && ofs + n <= SECTOR_SIZE
    ensures ReadSector(d, t.data[k])[ofs .. ofs + n] == Image(d, t, p)[SECTOR_SIZE * k + ofs .. SECTOR_SIZE * k + ofs + n]
  {
    ImageSector(d, t, p, k);
    SubSlice(Image(d, t, p), SECTOR_SIZE * k, SECTOR_SIZE, ofs, n);
  }

  lemma SubSlice<T>(s: seq<T>, base: nat, len: nat, ofs: nat, n: nat)
    requires base + len <= |s| && ofs + n <= len
    ensures s[base .. base + len][ofs .. ofs + n] == s[base + ofs .. base + ofs + n]
  {
    var a, b := s[base .. base + len][ofs .. ofs + n], s[base + ofs .. base + ofs + n];
    forall i | 0 <= i < n
      ensures a[i] == b[i]
    {
      assert a[i] == s[base + ofs + i];
    }
  }

  // ---------------------------------------------------------------------
  // inode_read_at

  /** How many bytes inode_read_at returns: size, cut at the end of the
      file, and none at or past it. */
  function ReadCount(length: int, size: int, offset: int): (n: nat)
    ensures n <= if size < 0 then 0 else size
    ensures n > 0 ==> offset + n <= length
    ensures n == 0 <==> size <= 0 || offset >= length
    ensures 0 < n < size ==> offset + n == length
  {
    if size <= 0 || offset >= length then 0
    else if size < length - offset then size
    else length - offset
  }

  /** One turn of the read loop: the bytes from offset to the end of its
      sector, of the file, or of the request, whichever comes first;
      none at or past the end of the file. */
  method ReadChunk(dev: Dev, h: InodeDisk, size: int, offset: nat, ghost hdr: Sector, ghost t: Tree, ghost p: nat)
    returns (chunk: seq<byte>)
    requires Laid(dev.disk, h, t, p) && size > 0
    ensures |chunk| <= size && (|chunk| == 0 <==> offset >= h.length)
    ensures |chunk| > 0 ==> offset + |chunk| <= h.length && chunk == Image(dev.disk, t, p)[offset .. offset + |chunk|]
  {
    var sector := ByteToSector(dev.disk, h, offset);
    var ofs := offset % SECTOR_SIZE;
    var n := ChunkLen(h.length, size, offset);
    if n <= 0 {
      return [];
    }
    ChunkBytes(dev.disk, h, t, p, offset, n);
    chunk := ReadPart(dev.disk, sector, ofs, n);
  }

  /** How many bytes one turn of the read or write loop moves: the least
      of what is left of the request, of the file and of the sector. */
  function ChunkLen(length: int, size: int, offset: nat): (n: int)
    ensures n <= size && n <= SECTOR_SIZE - offset % SECTOR_SIZE && n <= length - offset
    ensures n == size || n == SECTOR_SIZE - offset % SECTOR_SIZE || n == length - offset
  {
    var inodeLeft := length - offset;
    var sectorLeft := SECTOR_SIZE - offset % SECTOR_SIZE;
    var minLeft := if inodeLeft < sectorLeft then inodeLeft else sectorLeft;
    if size < minLeft then size else minLeft
  }

  /** Bytes ofs .. ofs + n of a sector: read straight into the caller's
      buffer when that is the whole sector, through a bounce buffer
      otherwise. */
  method ReadPart(d: Disk, sector: Sector, ofs: nat, n: nat) returns (chunk: seq<byte>)
    requires Sectors(d) && ofs + n <= SECTOR_SIZE
    ensures chunk == ReadSector(d, sector)[ofs .. ofs + n]
  {
    if ofs == 0 && n == SECTOR_SIZE {
      chunk := ReadSector(d, sector);
      WholeSlice(chunk);
    } else {
      var bounce := ReadSector(d, sector);
      chunk := bounce[ofs .. ofs + n];
    }
  }

  lemma WholeSlice<T>(s: seq<T>)
    ensures s[0 .. |s|] == s
  {
  }

  /** inode_read_at: the size bytes of the file from offset, fewer when
      the file ends first, copied sector by sector. */
  method ReadAt(dev: Dev, h: InodeDisk, size: int, offset: int, ghost hdr: Sector, ghost t: Tree, ghost p: nat)
    returns (r: seq<byte>)
    requires Sound(dev, hdr, h, t, p) && offset >= 0
    ensures |r| == ReadCount(h.length, size, offset)
    ensures |r| > 0 ==> r == Content(dev, hdr, h, t, p)[offset .. offset + |r|]
  {
    r := [];
    var remaining := size;
    var pos: nat := offset;
    while remaining > 0
      invariant pos == offset + |r| && remaining == size - |r| && (size > 0 ==> remaining >= 0)
      invariant |r| > 0 ==> pos <= h.length && r == Content(dev, hdr, h, t, p)[offset .. pos]
      invariant (offset >= h.length || size <= 0) ==> |r| == 0
      decreases remaining
    {
      var chunk := ReadChunk(dev, h, remaining, pos, hdr, t, p);
      if |chunk| == 0 {
        break;
      }
      assert Content(dev, hdr, h, t, p)[pos .. pos + |chunk|] == Image(dev.disk, t, p)[pos .. pos + |chunk|];
      assert Content(dev, hdr, h, t, p)[offset .. pos + |chunk|]
        == Content(dev, hdr, h, t, p)[offset .. pos] + Content(dev, hdr, h, t, p)[pos .. pos + |chunk|];
      r := r + chunk;
      remaining := remaining - |chunk|;
      pos := pos + |chunk|;
    }
  }

  // ---------------------------------------------------------------------
  // inode_write_at

  /** The file c padded with zeros to at least n bytes. */
  function Pad(c: seq<byte>, n: nat): (r: seq<byte>)
    ensures |r| == Max(|c|, n) && r[..|c|] == c
    ensures forall i :: |c| <= i < |r| ==> r[i] == 0
  {
    if |c| < n then c + Zeros(n - |c|) else c
  }

  /** s with the bytes from off replaced by x. */
  function Splice<T>(s: seq<T>, off: nat, x: seq<T>): (r: seq<T>)
    requires off + |x| <= |s|
    ensures |r| == |s|
  {
    s[..off] + x + s[off + |x|..]
  }

  /** The file c after buf is written at offset off: a nonempty write
      that ends past the end first extends the file with zeros. */
  function Written(c: seq<byte>, off: nat, buf: seq<byte>): (r: seq<byte>)
  {
    if buf == [] then c else Splice(Pad(c, off + |buf|), off, buf)
  }

  /** What a write leaves: its bytes where it wrote, the old bytes
      elsewhere, zeros in the gap it opened past the old end. */
  lemma WrittenBytes(c: seq<byte>, off: nat, buf: seq<byte>)
    ensures var r := Written(c, off, buf);
      && |r| == (if buf == [] then |c| else Max(|c|, off + |buf|))
      && (buf != [] ==> r[off .. off + |buf|] == buf)
      && (forall i :: 0 <= i < |c| && !(off <= i < off + |buf|) ==> r[i] == c[i])
      && (forall i :: |c| <= i < |r| && !(off <= i < off + |buf|) ==> r[i] == 0)
  {
    if buf != [] {
      var e := off + |buf|;
      var padded := Pad(c, e);
      var r := padded[..off] + buf + padded[e..];
      forall i | 0 <= i < |r| && !(off <= i < e)
        ensures r[i] == padded[i]
      {
        if i < off {
          assert r[i] == padded[..off][i];
        } else {
          assert r[i] == padded[e..][i - e];
        }
      }
    }
  }

  /** Reading back what was just written gives it back. */
  lemma WrittenReadBack(c: seq<byte>, off: nat, buf: seq<byte>)
    ensures var r := Written(c, off, buf);
      && ReadCount(|r|, |buf|, off) == |buf|
      && (buf != [] ==> r[off .. off + |buf|] == buf)
  {
    WrittenBytes(c, off, buf);
  }

  /** The growth guard of inode_write_at as written: the byte before
      offset + size lies outside the file. */
  function GrowsAsWritten(d: Disk, h: InodeDisk, offset: int, size: int): bool
    requires Sectors(d) && |h.blocks| == N_BLOCKS
  {
    ByteToSector(d, h, offset + size - 1) == NO_SECTOR
  }

  /** For a sound inode the guard as written holds exactly when the
      write ends at 0 (its "last byte" is at -1) or past the end. */
  lemma GrowsAsWrittenPastEnd(dev: Dev, hdr: Sector, h: InodeDisk, t: Tree, p: nat, offset: nat, size: nat)
    requires Sound(dev, hdr, h, t, p)
    ensures GrowsAsWritten(dev.disk, h, offset, size) <==> offset + size == 0 || offset + size > h.length
  {
    if 0 < offset + size <= h.length {
      InsideNamed(dev.disk, h, t, p, hdr, dev.free, offset + size - 1);
    }
  }

  /** The file c after buf is written at off by inode_write_at as
      written, when growth succeeds: a write of no bytes that passes the
      guard (at offset 0, or past the end) still sets the length to its
      end, cutting the file to nothing or padding it with zeros. */
  function WrittenAsWritten(c: seq<byte>, off: nat, buf: seq<byte>): (r: seq<byte>)
  {
    if buf == [] && (off == 0 || off > |c|) then Pad(c, off)[..off] else Written(c, off, buf)
  }

  /** Where the two differ: a write of no bytes at offset 0 empties a
      nonempty file, one past the end extends the file to its offset;
      Written leaves the file as it was in both cases, and the two agree
      on every other write. */
  lemma EmptyWriteTruncates(c: seq<byte>, off: nat, buf: seq<byte>)
    ensures c != [] ==> WrittenAsWritten(c, 0, []) == [] && Written(c, 0, []) == c
    ensures off > |c| ==> WrittenAsWritten(c, off, []) == c + Zeros(off - |c|) && Written(c, off, []) == c
    ensures buf != [] || 0 < off <= |c| ==> WrittenAsWritten(c, off, buf) == Written(c, off, buf)
  {
    if off > |c| {
      var r := Pad(c, off);
      assert r[..off] == r;
      assert r == c + Zeros(off - |c|);
    }
  }

  /** The guard as intended: a nonempty write whose last byte lies
      outside the file. */
  function Grows(d: Disk, h: InodeDisk, offset: int, size: int): bool
    requires Sectors(d) && |h.blocks| == N_BLOCKS
  {
    size > 0 && GrowsAsWritten(d, h, offset, size)
  }

  /** The intended guard grows exactly the nonempty writes that end past
      the end of the file. */
  lemma GrowsPastEnd(dev: Dev, hdr: Sector, h: InodeDisk, t: Tree, p: nat, offset: nat, size: int)
    requires Sound(dev, hdr, h, t, p)
    ensures Grows(dev.disk, h, offset, size) <==> size > 0 && offset + size > h.length
  {
    if size > 0 && offset + size <= h.length {
      InsideNamed(dev.disk, h, t, p, hdr, dev.free, offset + size - 1);
    }
  }

  /** A byte inside the file lies in an allocated data sector. */
  lemma InsideNamed(d: Disk, h: InodeDisk, t: Tree, p: nat, hdr: Sector, free: set<Sector>, pos: nat)
    requires Stored(d, h, t) && Filled(t, p) && Owned(t, hdr, free) && pos < h.length <= SECTOR_SIZE * p
    ensures ByteToSector(d, h, pos) != NO_SECTOR
  {
    SectorAt(d, h, t, p, pos);
    var k := pos / SECTOR_SIZE;
    assert Flat(t)[k] == t.data[k];
  }

  lemma SpliceTwice<T>(s: seq<T>, off: nat, x: seq<T>, y: seq<T>)
    requires off + |x| + |y| <= |s|
    ensures Splice(Splice(s, off, x), off + |x|, y) == Splice(s, off, x + y)
  {
    var a, b := Splice(Splice(s, off, x), off + |x|, y), Splice(s, off, x + y);
    forall i | 0 <= i < |s|
      ensures a[i] == b[i]
    {
      if i < off {
        assert a[i] == s[i] && b[i] == s[i];
      } else if i < off + |x| {
        assert a[i] == x[i - off] && b[i] == (x + y)[i - off];
      } else if i < off + |x| + |y| {
        assert a[i] == y[i - off - |x|] && b[i] == (x + y)[i - off];
      } else {
        assert a[i] == s[i] && b[i] == s[i];
      }
    }
  }

  /** One more chunk of buf spliced in after the first done bytes. */
  lemma SpliceStep<T>(s0: seq<T>, s1: seq<T>, s2: seq<T>, off: nat, buf: seq<T>, done: nat, n: nat)
    requires done + n <= |buf| && off + |buf| <= |s0|
    requires s1 == Splice(s0, off, buf[..done]) && s2 == Splice(s1, off + done, buf[done .. done + n])
    ensures s2 == Splice(s0, off, buf[..done + n])
  {
    SpliceTwice(s0, off, buf[..done], buf[done .. done + n]);
    assert buf[..done] + buf[done .. done + n] == buf[..done + n];
  }

  /** A splice that ends by m is seen by the first m bytes alone, and
      leaves the bytes from m on. */
  lemma SplicePrefix<T>(s: seq<T>, off: nat, x: seq<T>, m: nat)
    requires off + |x| <= m <= |s|
    ensures Splice(s, off, x)[..m] == Splice(s[..m], off, x)
    ensures Splice(s, off, x)[m..] == s[m..]
  {
  }

  /** Patching the bytes of one sector patches the image. */
  lemma SpliceSector<T>(s: seq<T>, base: nat, ofs: nat, x: seq<T>)
    requires base + SECTOR_SIZE <= |s| && ofs + |x| <= SECTOR_SIZE
    ensures Splice(s, base, Splice(s[base .. base + SECTOR_SIZE], ofs, x)) == Splice(s, base + ofs, x)
  {
    var a, b := Splice(s, base, Splice(s[base .. base + SECTOR_SIZE], ofs, x)), Splice(s, base + ofs, x);
    forall i | 0 <= i < |s|
      ensures a[i] == b[i]
    {
      if i < base + ofs {
        assert b[i] == s[i];
      } else if i < base + ofs + |x| {
        assert b[i] == x[i - base - ofs];
      } else {
        assert b[i] == s[i];
      }
    }
  }

  /** A data sector of an owned tree is no index sector and no other
      data sector. */
  lemma DataSector(t: Tree, hdr: Sector, free: set<Sector>, k: nat)
    requires Shaped(t) && Owned(t, hdr, free) && k < N_LEVEL2 && t.data[k] != 0
    ensures !Meta(t, t.data[k])
    ensures forall i :: 0 <= i < N_LEVEL2 && i != k ==> t.data[i] != t.data[k]
  {
    assert Flat(t)[k] == t.data[k];
    NotMeta(t, hdr, free, t.data[k]);
    forall i | 0 <= i < N_LEVEL2 && i != k
      ensures t.data[i] != t.data[k]
    {
      assert Flat(t)[i] == t.data[i];
    }
  }

  /** Writing data sector k with its bytes from offset % 512 replaced by
      x splices x into the image at offset. */
  lemma ChunkImage(d: Disk, t: Tree, p: nat, offset: nat, x: seq<byte>, b: seq<byte>)
    requires Sectors(d) && Shaped(t) && offset / SECTOR_SIZE < p <= N_LEVEL2
    requires offset % SECTOR_SIZE + |x| <= SECTOR_SIZE
    requires forall i :: 0 <= i < N_LEVEL2 && i != offset / SECTOR_SIZE ==> t.data[i] != t.data[offset / SECTOR_SIZE]
    requires b == Splice(ReadSector(d, t.data[offset / SECTOR_SIZE]), offset % SECTOR_SIZE, x)
    ensures offset + |x| <= SECTOR_SIZE * p
    ensures Image(WriteSector(d, t.data[offset / SECTOR_SIZE], b), t, p) == Splice(Image(d, t, p), offset, x)
  {
    var k, ofs := offset / SECTOR_SIZE, offset % SECTOR_SIZE;
    Split(offset);
    var im := Image(d, t, p);
    ImageWrite(d, t, p, k, b);
    ImageSector(d, t, p, k);
    SpliceSector(im, SECTOR_SIZE * k, ofs, x);
  }

  /** A disk that still stores t and keeps its bytes past the length, over
      the same free set, keeps the inode sound. */
  lemma KeepsSound(dev: Dev, hdr: Sector, h: InodeDisk, t: Tree, p: nat, dev': Dev)
    requires Sound(dev, hdr, h, t, p) && dev'.free == dev.free && Stored(dev'.disk, h, t)
    requires Image(dev'.disk, t, p)[h.length..] == Image(dev.disk, t, p)[h.length..]
    ensures Sound(dev', hdr, h, t, p)
  {
  }

  /** One turn of the write loop: the bytes of buf from done, up to the
      end of the sector of offset, of the file or of buf, written into
      that sector; none at or past the end of the file. */
  method WriteChunk(dev: Dev, h: InodeDisk, buf: seq<byte>, done: nat, offset: nat, ghost hdr: Sector, ghost t: Tree, ghost p: nat)
    returns (n: int, dev': Dev)
    requires Laid(dev.disk, h, t, p) && Owned(t, hdr, dev.free) && done < |buf|
    ensures n <= |buf| - done && (n <= 0 <==> offset >= h.length)
    ensures n <= 0 ==> dev' == dev
    ensures n > 0 ==> (
      && offset + n <= h.length && dev'.free == dev.free
      && Stored(dev'.disk, h, t)
      && Image(dev'.disk, t, p) == Splice(Image(dev.disk, t, p), offset, buf[done .. done + n]))
    ensures n > 0 ==> forall s :: s != t.data[offset / SECTOR_SIZE] ==> ReadSector(dev'.disk, s) == ReadSector(dev.disk, s)
    ensures n > 0 ==> offset / SECTOR_SIZE < p
  {
    var sector := ByteToSector(dev.disk, h, offset);
    var ofs := offset % SECTOR_SIZE;
    var inodeLeft := h.length - offset;
    var sectorLeft := SECTOR_SIZE - ofs;
    var minLeft := if inodeLeft < sectorLeft then inodeLeft else sectorLeft;
    var size := |buf| - done;
    n := if size < minLeft then size else minLeft;
    if n <= 0 {
      return n, dev;
    }
    var bounce: seq<byte>;
    if ofs == 0 && n == SECTOR_SIZE {
      bounce := buf[done .. done + SECTOR_SIZE];
    } else {
      var before := if ofs > 0 || n < sectorLeft then ReadSector(dev.disk, sector) else Zeros(SECTOR_SIZE);
      bounce := before[..ofs] + buf[done .. done + n] + before[ofs + n..];
    }
    ghost var x := buf[done .. done + n];
    SectorAt(dev.disk, h, t, p, offset);
    DataSector(t, hdr, dev.free, offset / SECTOR_SIZE);
    assert bounce == Splice(ReadSector(dev.disk, sector), ofs, x);
    ChunkImage(dev.disk, t, p, offset, x, bounce);
    dev' := dev.(disk := WriteSector(dev.disk, sector, bounce));
    WriteKeepsStored(dev.disk, h, t, sector, bounce);
  }

  /** The disk changed only at the first p data sectors of t. */
  ghost predicate DataOnly(dev: Dev, t: Tree, p: nat, dev': Dev)
    requires Shaped(t) && p <= N_LEVEL2
  {
    forall s :: (forall k :: 0 <= k < p ==> s != t.data[k]) ==> ReadSector(dev'.disk, s) == ReadSector(dev.disk, s)
  }

  /** The state of the write loop once the first done bytes of buf are
      written at offset. */
  ghost predicate Writing(dev: Dev, h: InodeDisk, buf: seq<byte>, offset: nat, hdr: Sector, t: Tree, p: nat, cur: Dev, done: nat)
    requires Sound(dev, hdr, h, t, p) && offset + |buf| <= h.length
  {
    && done <= |buf| && cur.free == dev.free && Sound(cur, hdr, h, t, p)
    && Image(cur.disk, t, p) == Splice(Image(dev.disk, t, p), offset, buf[..done])
    && DataOnly(dev, t, p, cur)
  }

  /** One turn of the write loop, with what it keeps. */
  method WriteTurn(dev: Dev, h: InodeDisk, buf: seq<byte>, offset: nat, ghost hdr: Sector, ghost t: Tree, ghost p: nat, cur: Dev, done: nat)
    returns (n: int, next: Dev)
    requires Sound(dev, hdr, h, t, p) && offset + |buf| <= h.length
    requires Writing(dev, h, buf, offset, hdr, t, p, cur, done) && done < |buf|
    ensures 0 < n <= |buf| - done && Writing(dev, h, buf, offset, hdr, t, p, next, done + n)
  {
    n, next := WriteChunk(cur, h, buf, done, offset + done, hdr, t, p);
    SpliceStep(Image(dev.disk, t, p), Image(cur.disk, t, p), Image(next.disk, t, p), offset, buf, done, n);
    SplicePrefix(Image(cur.disk, t, p), offset + done, buf[done .. done + n], h.length);
    KeepsSound(cur, hdr, h, t, p, next);
  }

  /** The write loop of inode_write_at, within the file: buf written at
      offset, every byte of it, into the data sectors alone. */
  method WriteLoop(dev: Dev, h: InodeDisk, buf: seq<byte>, offset: nat, ghost hdr: Sector, ghost t: Tree, ghost p: nat)
    returns (written: int, dev': Dev)
    requires Sound(dev, hdr, h, t, p) && (buf == [] || offset + |buf| <= h.length)
    ensures written == |buf| && dev'.free == dev.free && Sound(dev', hdr, h, t, p)
    ensures buf == [] ==> dev' == dev
    ensures buf != [] ==> Image(dev'.disk, t, p) == Splice(Image(dev.disk, t, p), offset, buf)
    ensures DataOnly(dev, t, p, dev')
  {
    dev' := dev;
    written := 0;
    var size := |buf|;
    assert buf[..0] == [];
    while size > 0
      invariant 0 <= written <= |buf| && size == |buf| - written
      invariant buf == [] ==> dev' == dev
      invariant buf != [] ==> Writing(dev, h, buf, offset, hdr, t, p, dev', written)
      decreases size
    {
      var n;
      n, dev' := WriteTurn(dev, h, buf, offset, hdr, t, p, dev', written);
      size := size - n;
      written := written + n;
    }
    assert buf[..written] == buf;
  }

  // ---------------------------------------------------------------------
  // Growing on a write past the end

  /** The disk changed only at sectors that were free, at the header
      hdr, or at sectors t names. */
  ghost predicate Confined(dev: Dev, t: Tree, hdr: Sector, dev': Dev)
  {
    forall s :: s !in dev.free && s != hdr && s !in Flat(t) ==> ReadSector(dev'.disk, s) == ReadSector(dev.disk, s)
  }

  /** Every sector t' names was named by t or was free. */
  ghost predicate Fresh(t: Tree, free: set<Sector>, t': Tree)
  {
    forall s :: s in Flat(t') && s != 0 ==> s in Flat(t) || s in free
  }

  /** A growth keeps within the old tree and the free sectors. */
  lemma GrownWithin(dev: Dev, t: Tree, p: nat, dev': Dev, t': Tree, p': nat, hdr: Sector)
    requires Grown(dev, t, p, dev', t', p', hdr)
    ensures Confined(dev, t, hdr, dev') && Fresh(t, dev.free, t')
  {
    forall s | s !in dev.free && s != hdr && s !in Flat(t)
      ensures ReadSector(dev'.disk, s) == ReadSector(dev.disk, s)
    {
      assert !Meta(t, s);
    }
    forall s | s in Flat(t') && s != 0
      ensures s in Flat(t) || s in dev.free
    {
      var i :| 0 <= i < |Flat(t')| && Flat(t')[i] == s;
      if i < N_LEVEL2 {
        assert s == t'.data[i];
        if i < p {
          assert Flat(t)[i] == s;
        }
      } else {
        assert Meta(t', s);
      }
    }
  }

  /** After a growth the old file stays and zeros follow it. */
  lemma GrownImage(dev: Dev, hdr: Sector, h: InodeDisk, t: Tree, p: nat, dev': Dev, h': InodeDisk, t': Tree, p': nat, m: nat)
    requires Sound(dev, hdr, h, t, p) && Extends(dev, t, p, dev', h', t', p', hdr)
    requires h.length <= m <= SECTOR_SIZE * p'
    ensures Image(dev'.disk, t', p')[..m] == Pad(Content(dev, hdr, h, t, p), m)
    ensures Image(dev'.disk, t', p')[m..] == Zeros(SECTOR_SIZE * p' - m)
  {
    ImageGrown(dev, t, p, dev', t', p', hdr, p');
    var c := Content(dev, hdr, h, t, p);
    var im := Image(dev.disk, t, p);
    assert im == c + Zeros(SECTOR_SIZE * p - h.length);
    assert Image(dev'.disk, t', p') == c + Zeros(SECTOR_SIZE * p' - h.length);
  }

  /** The header sector is no sector of an owned tree. */
  lemma HeaderApart(t: Tree, hdr: Sector, free: set<Sector>)
    requires Shaped(t) && Owned(t, hdr, free)
    ensures !Meta(t, hdr)
    ensures forall i :: 0 <= i < N_LEVEL2 && t.data[i] != 0 ==> t.data[i] != hdr
  {
    var f := Flat(t);
    assert f[IND_AT] == t.ind && f[DBL_AT] == t.dbl;
    assert forall j :: 0 <= j < N_INDIRECT ==> f[MID_AT + j] == t.mid[j];
    assert forall i :: 0 <= i < N_LEVEL2 ==> f[i] == t.data[i];
  }

  /** A ready tree on a disk that stores it under the header g and reads
      as zeros past g's length is sound. */
  lemma SoundAt(dev: Dev, h: InodeDisk, t: Tree, p: nat, hdr: Sector, dev': Dev, g: InodeDisk)
    requires Ready(dev, h, t, p, hdr) && dev'.free == dev.free && Stored(dev'.disk, g, t)
    requires 0 <= g.length <= SECTOR_SIZE * p && g.length < 0x8000_0000
    requires Image(dev'.disk, t, p)[g.length..] == Zeros(SECTOR_SIZE * p - g.length)
    ensures Sound(dev', hdr, g, t, p)
  {
  }

  /** A growth that failed leaves an inode that is sound with its old
      length and header sector, holding the old file. */
  lemma GrowFailed(dev: Dev, hdr: Sector, h: InodeDisk, t: Tree, p: nat, dev': Dev, h': InodeDisk, t': Tree, p': nat)
    requires Sound(dev, hdr, h, t, p) && Extends(dev, t, p, dev', h', t', p', hdr) && h'.length == h.length
    ensures Sound(dev', hdr, h', t', p') && Content(dev', hdr, h', t', p') == Content(dev, hdr, h, t, p)
    ensures ReadSector(dev'.disk, hdr) == ReadSector(dev.disk, hdr)
  {
    GrownImage(dev, hdr, h, t, p, dev', h', t', p', h.length);
    SoundAt(dev', h', t', p', hdr, dev', h');
    HeaderApart(t, hdr, dev.free);
  }

  /** The header write after a growth to length m: the inode is sound at
      that length and reads as the old file padded with zeros. */
  lemma GrownSound(dev: Dev, hdr: Sector, h: InodeDisk, t: Tree, p: nat, dev': Dev, h': InodeDisk, t': Tree, p': nat, m: nat)
    requires Sound(dev, hdr, h, t, p) && Extends(dev, t, p, dev', h', t', p', hdr)
    requires h.length <= m <= SECTOR_SIZE * p' && m < 0x8000_0000
    ensures var g := h'.(length := m);
      var dev2 := dev'.(disk := WriteSector(dev'.disk, hdr, EncodeInode(g)));
      && Sound(dev2, hdr, g, t', p')
      && Content(dev2, hdr, g, t', p') == Pad(Content(dev, hdr, h, t, p), m)
  {
    var g := h'.(length := m);
    var b := EncodeInode(g);
    var d2 := WriteSector(dev'.disk, hdr, b);
    GrownImage(dev, hdr, h, t, p, dev', h', t', p', m);
    HeaderApart(t', hdr, dev'.free);
    assert Stored(dev'.disk, g, t');
    WriteKeepsStored(dev'.disk, g, t', hdr, b);
    ImageSame(dev'.disk, d2, t', p');
    SoundAt(dev', h', t', p', hdr, dev'.(disk := d2), g);
  }

  /** What the write loop leaves of a file that reads as c padded to
      the length: c with buf written at off. */
  lemma LoopContent(mid: Dev, dev': Dev, hdr: Sector, h: InodeDisk, t: Tree, p: nat, c: seq<byte>, off: nat, buf: seq<byte>)
    requires Sound(mid, hdr, h, t, p) && Sound(dev', hdr, h, t, p) && buf != [] && off + |buf| <= h.length
    requires h.length == Max(|c|, off + |buf|)
    requires Content(mid, hdr, h, t, p) == Pad(c, h.length)
    requires Image(dev'.disk, t, p) == Splice(Image(mid.disk, t, p), off, buf)
    ensures Content(dev', hdr, h, t, p) == Written(c, off, buf)
  {
    SplicePrefix(Image(mid.disk, t, p), off, buf, h.length);
    assert Pad(c, h.length) == Pad(c, off + |buf|);
  }

  // ---------------------------------------------------------------------
  // inode_write_at

  /** A write into the data sectors of t' after a change confined to t
      and the free sectors, where t' came from those, is still confined. */
  lemma ConfinedData(dev: Dev, t: Tree, hdr: Sector, mid: Dev, t': Tree, p': nat, dev': Dev)
    requires Confined(dev, t, hdr, mid) && Fresh(t, dev.free, t') && Filled(t', p')
    requires DataOnly(mid, t', p', dev')
    ensures Confined(dev, t, hdr, dev')
  {
    forall s | s !in dev.free && s != hdr && s !in Flat(t)
      ensures ReadSector(dev'.disk, s) == ReadSector(dev.disk, s)
    {
      forall k | 0 <= k < p'
        ensures s != t'.data[k]
      {
        assert Flat(t')[k] == t'.data[k];
      }
    }
  }

  /** What the growth step of inode_write_at leaves, for a write of
      size bytes at offset: on success the file reads as before padded
      with zeros to the new length, which covers the write; on failure
      the file and its length are unchanged, the write ended past the
      end, and the free map ran out or the file would exceed the largest
      size. Either way only free sectors, the header and the inode's own
      sectors changed, and the header sector holds the new length. */
  ghost predicate Grew(dev: Dev, hdr: Sector, h: InodeDisk, t: Tree, p: nat, size: nat, offset: nat,
                       ok: bool, h': InodeDisk, dev': Dev, t': Tree, p': nat)
    requires Sound(dev, hdr, h, t, p)
  {
    && Sound(dev', hdr, h', t', p')
    && h'.isDir == h.isDir && h'.magic == h.magic
    && (ok ==> && (size > 0 ==> offset + size <= h'.length)
               && h'.length == (if size == 0 then h.length else Max(h.length, offset + size))
               && Content(dev', hdr, h', t', p') == Pad(Content(dev, hdr, h, t, p), h'.length))
    && (!ok ==> && h'.length == h.length && Content(dev', hdr, h', t', p') == Content(dev, hdr, h, t, p)
                && offset + size > h.length && (dev'.free == {} || offset + size > SECTOR_SIZE * N_LEVEL2))
    && dev'.free <= dev.free && Confined(dev, t, hdr, dev') && Fresh(t, dev.free, t')
    && ReadSector(dev'.disk, hdr) == if h'.length == h.length then ReadSector(dev.disk, hdr) else EncodeInode(h')
  }

  lemma GrowNone(dev: Dev, hdr: Sector, h: InodeDisk, t: Tree, p: nat, size: nat, offset: nat)
    requires Sound(dev, hdr, h, t, p) && !Grows(dev.disk, h, offset, size)
    ensures Grew(dev, hdr, h, t, p, size, offset, true, h, dev, t, p)
  {
    GrowsPastEnd(dev, hdr, h, t, p, offset, size);
    assert Pad(Content(dev, hdr, h, t, p), h.length) == Content(dev, hdr, h, t, p);
  }

  lemma GrowStopped(dev: Dev, hdr: Sector, h: InodeDisk, t: Tree, p: nat, size: nat, offset: nat,
                    h': InodeDisk, dev': Dev, t': Tree, p': nat)
    requires Sound(dev, hdr, h, t, p) && Grows(dev.disk, h, offset, size)
    requires Extends(dev, t, p, dev', h', t', p', hdr)
    requires h'.length == h.length && h'.isDir == h.isDir && h'.magic == h.magic
    requires BytesToSectors(offset + size) <= N_LEVEL2 ==> dev'.free == {}
    ensures Grew(dev, hdr, h, t, p, size, offset, false, h', dev', t', p')
  {
    GrowsPastEnd(dev, hdr, h, t, p, offset, size);
    GrownWithin(dev, t, p, dev', t', p', hdr);
    GrowFailed(dev, hdr, h, t, p, dev', h', t', p');
  }

  lemma GrowDone(dev: Dev, hdr: Sector, h: InodeDisk, t: Tree, p: nat, size: nat, offset: nat,
                 h1: InodeDisk, dev1: Dev, t1: Tree, p1: nat)
    requires Sound(dev, hdr, h, t, p) && Grows(dev.disk, h, offset, size) && offset + size < 0x8000_0000
    requires Extends(dev, t, p, dev1, h1, t1, p1, hdr)
    requires h1.length == h.length && h1.isDir == h.isDir && h1.magic == h.magic
    requires p1 == Max(p, BytesToSectors(offset + size))
    ensures var h' := h1.(length := offset + size);
      Grew(dev, hdr, h, t, p, size, offset, true, h', dev1.(disk := WriteSector(dev1.disk, hdr, EncodeInode(h'))), t1, p1)
  {
    GrowsPastEnd(dev, hdr, h, t, p, offset, size);
    GrownWithin(dev, t, p, dev1, t1, p1, hdr);
    GrownSound(dev, hdr, h, t, p, dev1, h1, t1, p1, offset + size);
  }

  /** The growth step of inode_write_at: a nonempty write that ends past
      the end grows the inode by do_inode_create to cover it, sets the
      length to its end and writes the header to its sector; any other
      write changes nothing. */
  method WriteGrow(dev: Dev, h: InodeDisk, size: nat, offset: nat, hdr: Sector, ghost t: Tree, ghost p: nat)
    returns (ok: bool, h': InodeDisk, dev': Dev, ghost t': Tree, ghost p': nat)
    requires Sound(dev, hdr, h, t, p) && offset + size < 0x8000_0000
    ensures Grew(dev, hdr, h, t, p, size, offset, ok, h', dev', t', p')
  {
    if !Grows(dev.disk, h, offset, size) {
      GrowNone(dev, hdr, h, t, p, size, offset);
      return true, h, dev, t, p;
    }
    var sectors := BytesToSectors(offset + size);
    ok, h', dev', t', p' := DoCreate(dev, h, sectors, hdr, t, p);
    if !ok {
      GrowStopped(dev, hdr, h, t, p, size, offset, h', dev', t', p');
      return;
    }
    GrowDone(dev, hdr, h, t, p, size, offset, h', dev', t', p');
    h' := h'.(length := offset + size);
    dev' := dev'.(disk := WriteSector(dev'.disk, hdr, EncodeInode(h')));
  }

  /** What a write of buf at offset leaves, n being the count it
      returns: a sound inode, its flag and magic number kept; all of buf
      spliced into the bytes, or nothing written because the file could
      not grow, the free map being exhausted or the write reaching past
      the largest file; sectors taken from the free map alone and only
      free sectors, the header sector and the inode's own changed; the
      header sector rewritten exactly when the length changed. */
  ghost predicate FileWritten(dev: Dev, hdr: Sector, h: InodeDisk, t: Tree, p: nat, buf: seq<byte>, offset: nat,
                              n: int, h': InodeDisk, dev': Dev, t': Tree, p': nat)
  {
    && Sound(dev, hdr, h, t, p) && Sound(dev', hdr, h', t', p')
    && h'.isDir == h.isDir && h'.magic == h.magic
    && (n == |buf| || n == 0)
    && (n == |buf| ==> Content(dev', hdr, h', t', p') == Written(Content(dev, hdr, h, t, p), offset, buf))
    && (n != |buf| ==> h'.length == h.length && Content(dev', hdr, h', t', p') == Content(dev, hdr, h, t, p))
    && (n != |buf| ==> offset + |buf| > h.length && (dev'.free == {} || offset + |buf| > SECTOR_SIZE * N_LEVEL2))
    && dev'.free <= dev.free && Confined(dev, t, hdr, dev') && Fresh(t, dev.free, t')
    && ReadSector(dev'.disk, hdr) == if h'.length == h.length then ReadSector(dev.disk, hdr) else EncodeInode(h')
  }

  /** inode_write_at past the deny check: the growth step, then buf
      written sector by sector; nothing is written when growth fails. */
  method WriteAt(dev: Dev, h: InodeDisk, buf: seq<byte>, offset: int, hdr: Sector, ghost t: Tree, ghost p: nat)
    returns (n: int, h': InodeDisk, dev': Dev, ghost t': Tree, ghost p': nat)
    requires Sound(dev, hdr, h, t, p) && offset >= 0 && offset + |buf| < 0x8000_0000
    ensures FileWritten(dev, hdr, h, t, p, buf, offset, n, h', dev', t', p')
  {
    var ok;
    ok, h', dev', t', p' := WriteGrow(dev, h, |buf|, offset, hdr, t, p);
    if !ok {
      return 0, h', dev', t', p';
    }
    ghost var mid := dev';
    n, dev' := WriteLoop(dev', h', buf, offset, hdr, t', p');
    if buf != [] {
      LoopContent(mid, dev', hdr, h', t', p', Content(dev, hdr, h, t, p), offset, buf);
    }
    ConfinedData(dev, t, hdr, mid, t', p', dev');
    HeaderApart(t', hdr, dev'.free);
  }
}
