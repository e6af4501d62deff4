/** The inode layer of project 4 (filesys/inode.c): inode_create, which
    lays out a new inode on its header sector, and the list of open
    inodes, each with its open and deny-write counts and its removed
    flag, through which files are read, written, removed and closed. */
module Inode {
  import opened Bytes
  import opened Block
  import opened Wrappers
  import opened InodeLayout
  import opened InodeTree
  import opened InodeGrow
  import opened InodeRelease
  import opened InodeData

  // ---------------------------------------------------------------------
  // inode_create

  /** The tree of an inode with no sector allocated. */
  function EmptyTree(): (t: Tree)
    ensures Shaped(t) && Filled(t, 0)
    ensures forall i :: 0 <= i < |Flat(t)| ==> Flat(t)[i] == 0
  {
    Tree(seq(N_LEVEL2, _ => 0), 0, 0, seq(N_INDIRECT, _ => 0))
  }

  /** The header inode_create fills in before growing: calloc'ed, so no
      pointers, then the length, the magic number and the directory
      flag. */
  function NewHeader(length: int, isDir: bool): (h: InodeDisk)
    ensures |h.blocks| == N_BLOCKS && forall i :: 0 <= i < N_BLOCKS ==> h.blocks[i] == 0
    ensures h.length == length && h.isDir == isDir && h.magic == INODE_MAGIC
  {
    InodeDisk(seq(N_BLOCKS, _ => 0), length, isDir, INODE_MAGIC)
  }

  /** An empty header names the empty tree, a sound inode of no bytes. */
  lemma EmptySound(dev: Dev, hdr: Sector, length: int, isDir: bool)
    requires DevOk(dev) && hdr !in dev.free
    ensures Ready(dev, NewHeader(length, isDir), EmptyTree(), 0, hdr)
    ensures Sound(dev, hdr, NewHeader(0, isDir), EmptyTree(), 0)
  {
    var t, h := EmptyTree(), NewHeader(length, isDir);
    assert h.blocks[..N_LEVEL0] == t.data[..N_LEVEL0];
    forall j | 0 <= j < N_INDIRECT
      ensures Holds(dev.disk, t.mid[j], Leaf(t, j))
    {
      assert forall i :: 0 <= i < N_INDIRECT ==> Leaf(t, j)[i] == t.data[N_LEVEL1 + N_INDIRECT * j + i];
    }
    assert Flat(t) == t.data + [t.ind, t.dbl] + t.mid;
  }

  /** The pointers of a stored, owned tree fit their 32-bit slots, so
      its header round-trips through the sector. */
  lemma TreeHeaderFits(d: Disk, h: InodeDisk, t: Tree, hdr: Sector, free: set<Sector>)
    requires Stored(d, h, t) && Owned(t, hdr, free)
    requires -0x8000_0000 <= h.length < 0x8000_0000 && h.magic < WORD_LIMIT
    ensures HeaderFits(h)
  {
    forall i | 0 <= i < N_BLOCKS
      ensures h.blocks[i] < WORD_LIMIT
    {
      if i < N_LEVEL0 {
        assert h.blocks[..N_LEVEL0][i] == t.data[..N_LEVEL0][i];
        assert Flat(t)[i] == t.data[i];
      } else if i == INDIRECT_SLOT {
        assert Flat(t)[IND_AT] == t.ind;
      } else {
        assert Flat(t)[DBL_AT] == t.dbl;
      }
    }
  }

  /** What inode_create leaves at sector hdr on success: a header of that
      length, directory flag and magic number, over bytes_to_sectors
      (length) data sectors and no index sector it does not need, which
      read as length zeros. */
  ghost predicate Created(dev: Dev, hdr: Sector, length: int, isDir: bool, t: Tree, p: nat)
  {
    && Sectors(dev.disk)
    && var h := DecodeInode(ReadSector(dev.disk, hdr));
    && h.length == length && h.isDir == isDir && h.magic == INODE_MAGIC
    && Sound(dev, hdr, h, t, p) && Content(dev, hdr, h, t, p) == Zeros(length)
    && length >= 0 && p == BytesToSectors(length) && NoSparePointers(t, p)
  }

  lemma CreateDone(dev: Dev, hdr: Sector, length: int, isDir: bool, dev1: Dev, h1: InodeDisk, t1: Tree, p1: nat)
    requires DevOk(dev) && hdr !in dev.free && 0 <= length < 0x8000_0000
    requires Extends(dev, EmptyTree(), 0, dev1, h1, t1, p1, hdr)
    requires h1.length == length && h1.isDir == isDir && h1.magic == INODE_MAGIC
    requires p1 == BytesToSectors(length)
    requires p1 <= N_LEVEL0 ==> t1.ind == 0
    requires p1 <= N_LEVEL1 ==> t1.dbl == 0
    ensures Created(dev1.(disk := WriteSector(dev1.disk, hdr, EncodeInode(h1))), hdr, length, isDir, t1, p1)
  {
    EmptySound(dev, hdr, 0, isDir);
    GrownSound(dev, hdr, NewHeader(0, isDir), EmptyTree(), 0, dev1, h1, t1, p1, length);
    assert h1.(length := length) == h1;
    assert Pad([], length) == Zeros(length);
    TreeHeaderFits(dev1.disk, h1, t1, hdr, dev1.free);
    InodeRoundTrip(h1);
  }

  /** inode_create: a header of the given length, directory flag and
      magic number is grown by do_inode_create to bytes_to_sectors
      (length) sectors and written to sector hdr. On failure the header
      sector is not written and the sectors taken so far stay taken. */
  method InodeCreate(dev: Dev, hdr: Sector, length: int, isDir: bool)
    returns (ok: bool, dev': Dev, ghost t: Tree, ghost p: nat)
    requires DevOk(dev) && hdr !in dev.free && 0 <= length < 0x8000_0000
    ensures ok ==> Created(dev', hdr, length, isDir, t, p)
    ensures !ok ==> (dev'.free == {} || length > SECTOR_SIZE * N_LEVEL2) && ReadSector(dev'.disk, hdr) == ReadSector(dev.disk, hdr)
    ensures DevOk(dev') && dev'.free <= dev.free && Confined(dev, EmptyTree(), hdr, dev')
    ensures Fresh(EmptyTree(), dev.free, t)
  {
    var h := NewHeader(length, isDir);
    EmptySound(dev, hdr, length, isDir);
    var sectors := BytesToSectors(length);
    var h';
    ok, h', dev', t, p := DoCreate(dev, h, sectors, hdr, EmptyTree(), 0);
    GrownWithin(dev, EmptyTree(), 0, dev', t, p, hdr);
    if ok {
      CreateDone(dev, hdr, length, isDir, dev', h', t, p);
      dev' := dev'.(disk := WriteSector(dev'.disk, hdr, EncodeInode(h')));
    }
  }

  // ---------------------------------------------------------------------
  // Frames

  /** An inode whose sectors read as before, over a free set that did not
      grow, is as sound as it was and holds the same bytes. */
  lemma SoundFrame(dev: Dev, hdr: Sector, h: InodeDisk, t: Tree, p: nat, dev': Dev)
    requires Sound(dev, hdr, h, t, p) && DevOk(dev') && dev'.free <= dev.free
    requires forall s :: s in Flat(t) && s != 0 ==> ReadSector(dev'.disk, s) == ReadSector(dev.disk, s)
    ensures Sound(dev', hdr, h, t, p) && Content(dev', hdr, h, t, p) == Content(dev, hdr, h, t, p)
  {
    StoredFrame(dev.disk, h, t, dev'.disk);
    forall i | 0 <= i < p
      ensures ReadSector(dev'.disk, t.data[i]) == ReadSector(dev.disk, t.data[i])
    {
      assert Flat(t)[i] == t.data[i];
    }
    ImageSame(dev.disk, dev'.disk, t, p);
  }

  /** A tree stays stored while its index sectors read as before. */
  lemma StoredFrame(d: Disk, h: InodeDisk, t: Tree, d': Disk)
    requires Stored(d, h, t) && Sectors(d')
    requires forall s :: s in Flat(t) && s != 0 ==> ReadSector(d', s) == ReadSector(d, s)
    ensures Stored(d', h, t)
  {
    var f := Flat(t);
    assert f[IND_AT] == t.ind && f[DBL_AT] == t.dbl;
    forall j | 0 <= j < N_INDIRECT
      ensures Holds(d', t.mid[j], Leaf(t, j))
    {
      assert f[MID_AT + j] == t.mid[j];
    }
  }

  /** An inode none of whose sectors is freed stays sound over a larger
      free set. */
  lemma SoundMoreFree(dev: Dev, hdr: Sector, h: InodeDisk, t: Tree, p: nat, dev': Dev)
    requires Sound(dev, hdr, h, t, p) && DevOk(dev') && dev'.disk == dev.disk
    requires hdr !in dev'.free && forall s :: s in Flat(t) && s != 0 ==> s !in dev'.free
    ensures Sound(dev', hdr, h, t, p) && Content(dev', hdr, h, t, p) == Content(dev, hdr, h, t, p)
  {
  }

  // ---------------------------------------------------------------------
  // The list of open inodes

  /** struct inode, without its list element: the header sector, the
      number of openers, the number of openers denying writes, the removed
      flag and the header in memory. The sector identifies the inode. */
  datatype OpenInode = OpenInode(sector: Sector, openCnt: nat, denyWriteCnt: nat, removed: bool, data: InodeDisk)

  /** The tree an open inode stores and its number of data sectors. */
  datatype Layout = Layout(tree: Tree, size: nat)

  /** An open inode: a sound inode on a valid header sector, opened at
      least once, denied writes by at most as many openers. */
  ghost predicate Member(dev: Dev, o: OpenInode, l: Layout)
  {
    && 0 < o.sector < NO_SECTOR
    && Sound(dev, o.sector, o.data, l.tree, l.size)
    && 0 < o.openCnt && o.denyWriteCnt <= o.openCnt
  }

  /** No sector of the inode at hdr (its tree's sectors) is one of the
      inode at hdr'. */
  ghost predicate Separate(hdr: Sector, t: Tree, hdr': Sector, t': Tree)
  {
    && hdr != hdr'
    && forall s :: s in Flat(t) && s != 0 ==> s !in Flat(t') && s != hdr'
  }

  /** The open list: open inodes on distinct sectors sharing none. */
  ghost predicate TableOk(dev: Dev, open: seq<OpenInode>, lays: seq<Layout>)
  {
    && DevOk(dev) && |lays| == |open|
    && (forall i :: 0 <= i < |open| ==> Member(dev, open[i], lays[i]))
    && (forall i, j :: 0 <= i < |open| && 0 <= j < |open| && i != j ==>
          Separate(open[i].sector, lays[i].tree, open[j].sector, lays[j].tree))
  }

  /** The bytes of the i-th open inode. */
  ghost function FileOf(dev: Dev, open: seq<OpenInode>, lays: seq<Layout>, i: int): seq<byte>
    requires TableOk(dev, open, lays) && 0 <= i < |open|
  {
    Content(dev, open[i].sector, open[i].data, lays[i].tree, lays[i].size)
  }

  /** A change confined to one open inode and the free sectors keeps
      every other open inode and its bytes. */
  lemma OthersKept(dev: Dev, open: seq<OpenInode>, lays: seq<Layout>, i: int, dev': Dev)
    requires TableOk(dev, open, lays) && 0 <= i < |open|
    requires DevOk(dev') && dev'.free <= dev.free && Confined(dev, lays[i].tree, open[i].sector, dev')
    ensures forall j :: 0 <= j < |open| && j != i ==>
      && Sound(dev', open[j].sector, open[j].data, lays[j].tree, lays[j].size)
      && Content(dev', open[j].sector, open[j].data, lays[j].tree, lays[j].size) == FileOf(dev, open, lays, j)
  {
    forall j | 0 <= j < |open| && j != i
      ensures && Sound(dev', open[j].sector, open[j].data, lays[j].tree, lays[j].size)
              && Content(dev', open[j].sector, open[j].data, lays[j].tree, lays[j].size) == FileOf(dev, open, lays, j)
    {
      assert Member(dev, open[j], lays[j]);
      assert Separate(open[j].sector, lays[j].tree, open[i].sector, lays[i].tree);
      SoundFrame(dev, open[j].sector, open[j].data, lays[j].tree, lays[j].size, dev');
    }
  }

  /** Sectors taken from the free set do not break separation. */
  lemma SeparateFresh(hi: Sector, ti: Tree, ti': Tree, hj: Sector, tj: Tree, free: set<Sector>)
    requires Separate(hi, ti, hj, tj) && Separate(hj, tj, hi, ti) && Fresh(ti, free, ti')
    requires hj !in free && forall s :: s in Flat(tj) && s != 0 ==> s !in free
    ensures Separate(hi, ti', hj, tj) && Separate(hj, tj, hi, ti')
  {
  }

  /** Replacing one open inode after a change confined to it and the
      free sectors, whose new sectors were free, keeps the list sound and
      every other inode's bytes. */
  lemma TableUpdate(dev: Dev, open: seq<OpenInode>, lays: seq<Layout>, i: int, dev': Dev, o': OpenInode, l': Layout)
    requires TableOk(dev, open, lays) && 0 <= i < |open|
    requires DevOk(dev') && dev'.free <= dev.free && o'.sector == open[i].sector && Member(dev', o', l')
    requires Confined(dev, lays[i].tree, open[i].sector, dev') && Fresh(lays[i].tree, dev.free, l'.tree)
    ensures TableOk(dev', open[i := o'], lays[i := l'])
    ensures forall j :: 0 <= j < |open| && j != i ==> FileOf(dev', open[i := o'], lays[i := l'], j) == FileOf(dev, open, lays, j)
  {
    var open', lays' := open[i := o'], lays[i := l'];
    OthersKept(dev, open, lays, i, dev');
    forall j | 0 <= j < |open| && j != i
      ensures && Separate(open'[i].sector, lays'[i].tree, open'[j].sector, lays'[j].tree)
              && Separate(open'[j].sector, lays'[j].tree, open'[i].sector, lays'[i].tree)
    {
      assert Member(dev, open[j], lays[j]);
      SeparateFresh(open[i].sector, lays[i].tree, l'.tree, open[j].sector, lays[j].tree, dev.free);
    }
    assert forall j :: 0 <= j < |open| ==> Member(dev', open'[j], lays'[j]);
  }

  /** The position of the open inode on sector s, or -1. */
  function Find(open: seq<OpenInode>, s: Sector): (r: int)
    ensures -1 <= r < |open|
    ensures r >= 0 ==> open[r].sector == s && forall i :: 0 <= i < r ==> open[i].sector != s
    ensures r < 0 ==> forall i :: 0 <= i < |open| ==> open[i].sector != s
  {
    if |open| == 0 then -1
    else if open[0].sector == s then 0
    else
      var r := Find(open[1..], s);
      if r < 0 then -1 else r + 1
  }

  /** The walk inode_open makes over the list of open inodes. */
  method FindOpen(open: seq<OpenInode>, s: Sector) returns (i: int)
    ensures i == Find(open, s)
  {
    i := 0;
    while i < |open|
      invariant 0 <= i <= |open|
      invariant forall j :: 0 <= j < i ==> open[j].sector != s
    {
      if open[i].sector == s {
        return;
      }
      i := i + 1;
    }
    i := -1;
  }

  /** The header sectors of the open inodes. */
  function Keys(open: seq<OpenInode>): set<Sector>
  {
    set i | 0 <= i < |open| :: open[i].sector
  }

  /** No two open inodes on one sector. */
  ghost predicate Unique(open: seq<OpenInode>)
  {
    forall i, j :: 0 <= i < |open| && 0 <= j < |open| && i != j ==> open[i].sector != open[j].sector
  }

  /** vals[i] filed under the sector of open[i]. */
  ghost function Zip(open: seq<OpenInode>, vals: seq<seq<byte>>): map<Sector, seq<byte>>
    requires |vals| == |open|
  {
    if open == [] then map[] else Zip(open[1..], vals[1..])[open[0].sector := vals[0]]
  }

  lemma KeysTail(open: seq<OpenInode>)
    requires open != []
    ensures Keys(open) == {open[0].sector} + Keys(open[1..])
  {
    forall s | s in Keys(open)
      ensures s == open[0].sector || s in Keys(open[1..])
    {
      var j :| 0 <= j < |open| && open[j].sector == s;
      if j > 0 {
        assert open[1..][j - 1] == open[j];
      }
    }
    forall s | s in Keys(open[1..])
      ensures s in Keys(open)
    {
      var j :| 0 <= j < |open[1..]| && open[1..][j].sector == s;
      assert open[j + 1] == open[1..][j];
    }
  }

  lemma {:induction false} ZipAt(open: seq<OpenInode>, vals: seq<seq<byte>>)
    requires Unique(open) && |vals| == |open|
    ensures Zip(open, vals).Keys == Keys(open)
    ensures forall j :: 0 <= j < |open| ==> Zip(open, vals)[open[j].sector] == vals[j]
    decreases |open|
  {
    if open != [] {
      var tail, rest := open[1..], vals[1..];
      assert Unique(tail) by {
        assert forall a :: 0 <= a < |tail| ==> tail[a] == open[a + 1];
      }
      ZipAt(tail, rest);
      KeysTail(open);
      forall j | 0 < j < |open|
        ensures Zip(open, vals)[open[j].sector] == vals[j]
      {
        assert tail[j - 1] == open[j] && rest[j - 1] == vals[j];
      }
    }
  }

  /** A map with the keys and values of the list is its Zip. */
  lemma ZipIs(open: seq<OpenInode>, vals: seq<seq<byte>>, m: map<Sector, seq<byte>>)
    requires Unique(open) && |vals| == |open| && m.Keys == Keys(open)
    requires forall j :: 0 <= j < |open| ==> m[open[j].sector] == vals[j]
    ensures Zip(open, vals) == m
  {
    ZipAt(open, vals);
    forall s | s in m.Keys
      ensures Zip(open, vals)[s] == m[s]
    {
      var j :| 0 <= j < |open| && open[j].sector == s;
    }
  }

  lemma KeysSame(open: seq<OpenInode>, open': seq<OpenInode>)
    requires |open'| == |open| && forall j :: 0 <= j < |open| ==> open'[j].sector == open[j].sector
    ensures Keys(open') == Keys(open)
  {
    forall s | s in Keys(open)
      ensures s in Keys(open')
    {
      var j :| 0 <= j < |open| && open[j].sector == s;
      assert open'[j].sector == s;
    }
  }

  /** Lists over the same sectors file the same values alike. */
  lemma ZipSame(open: seq<OpenInode>, vals: seq<seq<byte>>, open': seq<OpenInode>)
    requires Unique(open) && |vals| == |open| && |open'| == |open|
    requires forall j :: 0 <= j < |open| ==> open'[j].sector == open[j].sector
    ensures Unique(open') && Zip(open', vals) == Zip(open, vals)
  {
    KeysSame(open, open');
    ZipAt(open, vals);
    ZipIs(open', vals, Zip(open, vals));
  }

  /** A sector on a list of distinct sectors is found where it is. */
  lemma FindAt(open: seq<OpenInode>, j: int)
    requires Unique(open) && 0 <= j < |open|
    ensures Find(open, open[j].sector) == j
  {
  }

  /** The open inode on sector s. */
  function At(open: seq<OpenInode>, s: Sector): (o: OpenInode)
    requires s in Keys(open)
    ensures o.sector == s && o in open
  {
    open[Find(open, s)]
  }

  lemma KeysPush(open: seq<OpenInode>, o: OpenInode)
    ensures Keys([o] + open) == Keys(open) + {o.sector}
  {
    var open' := [o] + open;
    assert open'[0] == o;
    forall s | s in Keys(open)
      ensures s in Keys(open')
    {
      var j :| 0 <= j < |open| && open[j].sector == s;
      assert open'[j + 1] == open[j];
    }
  }

  /** Changing the value at one position changes the map at its sector. */
  lemma ZipPut(open: seq<OpenInode>, vals: seq<seq<byte>>, i: int, open': seq<OpenInode>, vals': seq<seq<byte>>)
    requires Unique(open) && |vals| == |open| && 0 <= i < |open| && |open'| == |open| && |vals'| == |open|
    requires forall j :: 0 <= j < |open| ==> open'[j].sector == open[j].sector
    requires forall j :: 0 <= j < |open| && j != i ==> vals'[j] == vals[j]
    ensures Unique(open') && Zip(open', vals') == Zip(open, vals)[open[i].sector := vals'[i]]
  {
    KeysSame(open, open');
    ZipAt(open, vals);
    ZipIs(open', vals', Zip(open, vals)[open[i].sector := vals'[i]]);
  }

  /** An inode pushed on the front is filed under its sector. */
  lemma ZipPush(open: seq<OpenInode>, vals: seq<seq<byte>>, o: OpenInode, v: seq<byte>)
    requires Unique(open) && |vals| == |open| && o.sector !in Keys(open)
    ensures Unique([o] + open) && Zip([o] + open, [v] + vals) == Zip(open, vals)[o.sector := v]
  {
    var open' := [o] + open;
    assert open'[1..] == open && ([v] + vals)[1..] == vals;
    forall a, b | 0 <= a < |open'| && 0 <= b < |open'| && a != b
      ensures open'[a].sector != open'[b].sector
    {
      if a > 0 && b > 0 {
        assert open'[a] == open[a - 1] && open'[b] == open[b - 1];
      } else if a == 0 {
        assert open[b - 1].sector in Keys(open);
      } else {
        assert open[a - 1].sector in Keys(open);
      }
    }
  }

  /** The sequence without its i-th element. */
  function Cut<T>(s: seq<T>, i: int): (r: seq<T>)
    requires 0 <= i < |s|
    ensures |r| == |s| - 1
    ensures forall j :: 0 <= j < i ==> r[j] == s[j]
    ensures forall j :: i <= j < |r| ==> r[j] == s[j + 1]
  {
    s[..i] + s[i + 1..]
  }

  /** An inode unlinked from the list is no longer filed. */
  lemma ZipCut(open: seq<OpenInode>, vals: seq<seq<byte>>, i: int)
    requires Unique(open) && |vals| == |open| && 0 <= i < |open|
    ensures Unique(Cut(open, i)) && Zip(Cut(open, i), Cut(vals, i)) == Zip(open, vals) - {open[i].sector}
  {
    var open', vals' := Cut(open, i), Cut(vals, i);
    var m := Zip(open, vals) - {open[i].sector};
    ZipAt(open, vals);
    forall s | s in Keys(open')
      ensures s in m.Keys
    {
      var a :| 0 <= a < |open'| && open'[a].sector == s;
    }
    forall s | s in m.Keys
      ensures s in Keys(open')
    {
      var j :| 0 <= j < |open| && open[j].sector == s;
      if j < i {
        assert open'[j] == open[j];
      } else {
        assert open'[j - 1] == open[j];
      }
    }
    ZipIs(open', vals', m);
  }

  /** The open inodes' bytes, in list order. */
  ghost function Contents(dev: Dev, open: seq<OpenInode>, lays: seq<Layout>): (c: seq<seq<byte>>)
    requires TableOk(dev, open, lays)
    ensures |c| == |open| && forall j :: 0 <= j < |open| ==> c[j] == FileOf(dev, open, lays, j)
  {
    seq(|open|, j requires 0 <= j < |open| && TableOk(dev, open, lays) => FileOf(dev, open, lays, j))
  }

  lemma TableUnique(dev: Dev, open: seq<OpenInode>, lays: seq<Layout>)
    requires TableOk(dev, open, lays)
    ensures Unique(open)
  {
    forall i, j | 0 <= i < |open| && 0 <= j < |open| && i != j
      ensures open[i].sector != open[j].sector
    {
      assert Separate(open[i].sector, lays[i].tree, open[j].sector, lays[j].tree);
    }
  }

  /** The bytes of each open inode, by header sector. */
  ghost function Files(dev: Dev, open: seq<OpenInode>, lays: seq<Layout>): (m: map<Sector, seq<byte>>)
    requires TableOk(dev, open, lays)
    ensures m.Keys == Keys(open)
    ensures forall j :: 0 <= j < |open| ==> m[open[j].sector] == FileOf(dev, open, lays, j)
  {
    TableUnique(dev, open, lays);
    ZipAt(open, Contents(dev, open, lays));
    Zip(open, Contents(dev, open, lays))
  }

  /** A change that leaves every sector of the open inodes as it was and
      only takes sectors from the free set keeps the list and its files. */
  lemma TableFrame(dev: Dev, open: seq<OpenInode>, lays: seq<Layout>, dev': Dev)
    requires TableOk(dev, open, lays) && DevOk(dev') && dev'.free <= dev.free
    requires forall j, s :: 0 <= j < |open| && s in Flat(lays[j].tree) && s != 0 ==> ReadSector(dev'.disk, s) == ReadSector(dev.disk, s)
    ensures TableOk(dev', open, lays) && Files(dev', open, lays) == Files(dev, open, lays)
  {
    forall j | 0 <= j < |open|
      ensures && Member(dev', open[j], lays[j])
              && Content(dev', open[j].sector, open[j].data, lays[j].tree, lays[j].size) == FileOf(dev, open, lays, j)
    {
      assert Member(dev, open[j], lays[j]);
      SoundFrame(dev, open[j].sector, open[j].data, lays[j].tree, lays[j].size, dev');
    }
    assert Contents(dev', open, lays) == Contents(dev, open, lays);
  }

  lemma CountsOk(dev: Dev, open: seq<OpenInode>, lays: seq<Layout>, i: int, o': OpenInode)
    requires TableOk(dev, open, lays) && 0 <= i < |open|
    requires o'.sector == open[i].sector && o'.data == open[i].data
    requires 0 < o'.openCnt && o'.denyWriteCnt <= o'.openCnt
    ensures TableOk(dev, open[i := o'], lays)
  {
    forall j | 0 <= j < |open|
      ensures Member(dev, open[i := o'][j], lays[j])
    {
      assert Member(dev, open[j], lays[j]);
    }
  }

  /** Changing the counts or the removed flag of one open inode keeps
      the list and its files. */
  lemma TableCounts(dev: Dev, open: seq<OpenInode>, lays: seq<Layout>, i: int, o': OpenInode)
    requires TableOk(dev, open, lays) && 0 <= i < |open|
    requires o'.sector == open[i].sector && o'.data == open[i].data
    requires 0 < o'.openCnt && o'.denyWriteCnt <= o'.openCnt
    ensures TableOk(dev, open[i := o'], lays) && Files(dev, open[i := o'], lays) == Files(dev, open, lays)
  {
    var open' := open[i := o'];
    CountsOk(dev, open, lays, i, o');
    var c := Contents(dev, open, lays);
    forall j | 0 <= j < |open|
      ensures FileOf(dev, open', lays, j) == c[j]
    {
    }
    assert Contents(dev, open', lays) == c;
    TableUnique(dev, open, lays);
    ZipSame(open, c, open');
  }

  /** Replacing one open inode after a change confined to it keeps the
      list, and changes the files at its sector alone. */
  lemma TableReplace(dev: Dev, open: seq<OpenInode>, lays: seq<Layout>, i: int, dev': Dev, o': OpenInode, l': Layout)
    requires TableOk(dev, open, lays) && 0 <= i < |open|
    requires DevOk(dev') && dev'.free <= dev.free && o'.sector == open[i].sector && Member(dev', o', l')
    requires Confined(dev, lays[i].tree, open[i].sector, dev') && Fresh(lays[i].tree, dev.free, l'.tree)
    ensures TableOk(dev', open[i := o'], lays[i := l'])
    ensures Files(dev', open[i := o'], lays[i := l'])
      == Files(dev, open, lays)[open[i].sector := Content(dev', o'.sector, o'.data, l'.tree, l'.size)]
  {
    TableUpdate(dev, open, lays, i, dev', o', l');
    TableUnique(dev, open, lays);
    ZipPut(open, Contents(dev, open, lays), i, open[i := o'], Contents(dev', open[i := o'], lays[i := l']));
  }

  /** The inode at hdr with tree t shares no sector with an open inode. */
  ghost predicate Alone(open: seq<OpenInode>, lays: seq<Layout>, hdr: Sector, t: Tree)
    requires |lays| == |open|
  {
    forall j :: 0 <= j < |open| ==>
      Separate(hdr, t, open[j].sector, lays[j].tree) && Separate(open[j].sector, lays[j].tree, hdr, t)
  }

  /** Pushing an inode apart from the open ones keeps the list, and
      files its bytes under its sector. */
  lemma TablePush(dev: Dev, open: seq<OpenInode>, lays: seq<Layout>, o: OpenInode, l: Layout)
    requires TableOk(dev, open, lays) && Member(dev, o, l) && Alone(open, lays, o.sector, l.tree)
    ensures TableOk(dev, [o] + open, [l] + lays)
    ensures Files(dev, [o] + open, [l] + lays) == Files(dev, open, lays)[o.sector := Content(dev, o.sector, o.data, l.tree, l.size)]
  {
    var open', lays' := [o] + open, [l] + lays;
    assert forall j :: 0 < j < |open'| ==> open'[j] == open[j - 1] && lays'[j] == lays[j - 1];
    forall a, b | 0 <= a < |open'| && 0 <= b < |open'| && a != b
      ensures Separate(open'[a].sector, lays'[a].tree, open'[b].sector, lays'[b].tree)
    {
      if a > 0 && b > 0 {
        assert Separate(open[a - 1].sector, lays[a - 1].tree, open[b - 1].sector, lays[b - 1].tree);
      }
    }
    assert forall j :: 0 <= j < |open| ==> Member(dev, open[j], lays[j]);
    assert TableOk(dev, open', lays');
    var c := Contents(dev, open, lays);
    assert Contents(dev, open', lays') == [Content(dev, o.sector, o.data, l.tree, l.size)] + c;
    forall j | 0 <= j < |open|
      ensures open[j].sector != o.sector
    {
      assert Separate(o.sector, l.tree, open[j].sector, lays[j].tree);
    }
    TableUnique(dev, open, lays);
    ZipPush(open, c, o, Content(dev, o.sector, o.data, l.tree, l.size));
  }

  /** Unlinking the i-th open inode and handing its header and sectors
      back keeps the rest of the list and its files. */
  lemma TableDrop(dev: Dev, open: seq<OpenInode>, lays: seq<Layout>, i: int, dev': Dev)
    requires TableOk(dev, open, lays) && 0 <= i < |open|
    requires dev'.disk == dev.disk && dev'.free <= dev.free + {open[i].sector} + Used(lays[i].tree)
    ensures TableOk(dev', Cut(open, i), Cut(lays, i))
    ensures Files(dev', Cut(open, i), Cut(lays, i)) == Files(dev, open, lays) - {open[i].sector}
  {
    var open', lays' := Cut(open, i), Cut(lays, i);
    var t := lays[i].tree;
    assert Member(dev, open[i], lays[i]);
    assert forall x :: x in Used(t) ==> x != 0 && x < NO_SECTOR && x in Flat(t) by {
      forall x | x in Used(t)
        ensures x != 0 && x < NO_SECTOR && x in Flat(t)
      {
        var k :| 0 <= k < |Flat(t)| && Flat(t)[k] != 0 && Flat(t)[k] == x;
      }
    }
    assert DevOk(dev');
    KeptAfterDrop(dev, open, lays, i, dev');
    var c := Contents(dev, open, lays);
    assert Contents(dev', open', lays') == Cut(c, i);
    TableUnique(dev, open, lays);
    ZipCut(open, c, i);
  }

  lemma KeptAfterDrop(dev: Dev, open: seq<OpenInode>, lays: seq<Layout>, i: int, dev': Dev)
    requires TableOk(dev, open, lays) && 0 <= i < |open| && DevOk(dev')
    requires dev'.disk == dev.disk && dev'.free <= dev.free + {open[i].sector} + Used(lays[i].tree)
    requires forall x :: x in Used(lays[i].tree) ==> x != 0 && x in Flat(lays[i].tree)
    ensures TableOk(dev', Cut(open, i), Cut(lays, i))
    ensures forall j :: 0 <= j < |open| - 1 ==> FileOf(dev', Cut(open, i), Cut(lays, i), j) == FileOf(dev, open, lays, if j < i then j else j + 1)
  {
    var open', lays' := Cut(open, i), Cut(lays, i);
    forall j | 0 <= j < |open| && j != i
      ensures && Member(dev', open[j], lays[j])
              && Content(dev', open[j].sector, open[j].data, lays[j].tree, lays[j].size) == FileOf(dev, open, lays, j)
    {
      assert Member(dev, open[j], lays[j]);
      assert Separate(open[j].sector, lays[j].tree, open[i].sector, lays[i].tree);
      assert Separate(open[i].sector, lays[i].tree, open[j].sector, lays[j].tree);
      SoundMoreFree(dev, open[j].sector, open[j].data, lays[j].tree, lays[j].size, dev');
    }
    forall a, b | 0 <= a < |open'| && 0 <= b < |open'| && a != b
      ensures Separate(open'[a].sector, lays'[a].tree, open'[b].sector, lays'[b].tree)
    {
      var a0, b0 := if a < i then a else a + 1, if b < i then b else b + 1;
      assert open'[a] == open[a0] && lays'[a] == lays[a0] && open'[b] == open[b0] && lays'[b] == lays[b0];
      assert Separate(open[a0].sector, lays[a0].tree, open[b0].sector, lays[b0].tree);
    }
    forall j | 0 <= j < |open'|
      ensures Member(dev', open'[j], lays'[j])
    {
      var j0 := if j < i then j else j + 1;
      assert open'[j] == open[j0] && lays'[j] == lays[j0];
    }
  }

  /** The header on sector s reads as an inode of tree t with p data
      sectors, sharing no sector with an open inode. */
  ghost predicate Openable(dev: Dev, open: seq<OpenInode>, lays: seq<Layout>, s: Sector, t: Tree, p: nat)
    requires |lays| == |open|
  {
    && 0 < s < NO_SECTOR && Sectors(dev.disk)
    && Sound(dev, s, DecodeInode(ReadSector(dev.disk, s)), t, p)
    && Alone(open, lays, s, t)
  }

  /** No open inode is on sector s or names it. */
  ghost predicate Spare(open: seq<OpenInode>, lays: seq<Layout>, s: Sector)
    requires |lays| == |open|
  {
    forall j :: 0 <= j < |open| ==> s != open[j].sector && s !in Flat(lays[j].tree)
  }

  /** inode_create on a spare sector keeps the open inodes, and what it
      creates can be opened. */
  lemma CreateKeeps(dev: Dev, open: seq<OpenInode>, lays: seq<Layout>, hdr: Sector, dev': Dev, t: Tree)
    requires TableOk(dev, open, lays) && Spare(open, lays, hdr) && hdr !in dev.free
    requires DevOk(dev') && dev'.free <= dev.free && Confined(dev, EmptyTree(), hdr, dev')
    requires Fresh(EmptyTree(), dev.free, t)
    ensures TableOk(dev', open, lays) && Files(dev', open, lays) == Files(dev, open, lays)
    ensures Alone(open, lays, hdr, t)
  {
    assert forall x :: x in Flat(EmptyTree()) ==> x == 0;
    forall j, x | 0 <= j < |open| && x in Flat(lays[j].tree) && x != 0
      ensures ReadSector(dev'.disk, x) == ReadSector(dev.disk, x) && x !in dev.free
    {
      assert Member(dev, open[j], lays[j]);
    }
    TableFrame(dev, open, lays, dev');
    CreateAlone(dev, open, lays, hdr, t);
  }

  /** A tree of sectors that were free is apart from every open inode. */
  lemma CreateAlone(dev: Dev, open: seq<OpenInode>, lays: seq<Layout>, hdr: Sector, t: Tree)
    requires TableOk(dev, open, lays) && Spare(open, lays, hdr) && Fresh(EmptyTree(), dev.free, t)
    ensures Alone(open, lays, hdr, t)
  {
    assert forall x :: x in Flat(EmptyTree()) ==> x == 0;
    forall j | 0 <= j < |open|
      ensures Separate(hdr, t, open[j].sector, lays[j].tree) && Separate(open[j].sector, lays[j].tree, hdr, t)
    {
      MemberApart(dev, open[j], lays[j]);
      FreeApart(hdr, t, open[j].sector, lays[j].tree, dev.free);
    }
  }

  /** An open inode's sectors are not free. */
  lemma MemberApart(dev: Dev, o: OpenInode, l: Layout)
    requires Member(dev, o, l)
    ensures o.sector !in dev.free && forall s :: s in Flat(l.tree) && s != 0 ==> s !in dev.free
  {
  }

  /** Sectors that were free are apart from an inode that has none. */
  lemma FreeApart(hdr: Sector, t: Tree, hj: Sector, tj: Tree, free: set<Sector>)
    requires hdr != hj && hdr !in Flat(tj)
    requires forall s :: s in Flat(t) && s != 0 ==> s in free
    requires hj !in free && forall s :: s in Flat(tj) && s != 0 ==> s !in free
    ensures Separate(hdr, t, hj, tj) && Separate(hj, tj, hdr, t)
  {
  }

  /** One more opener. */
  function Bumped(o: OpenInode): (o': OpenInode)
    ensures o'.openCnt == o.openCnt + 1
  {
    o.(openCnt := o.openCnt + 1)
  }

  /** One more opener that denies writes. */
  function Denied(o: OpenInode): (o': OpenInode)
    ensures o'.denyWriteCnt == o.denyWriteCnt + 1
  {
    o.(denyWriteCnt := o.denyWriteCnt + 1)
  }

  /** The list after the open inode on o'.sector became o', which differs
      from it in its counts or flag alone: still sound, over the same
      sectors and in the same order, with the same files. */
  ghost predicate Recounted(dev: Dev, open: seq<OpenInode>, lays: seq<Layout>,
                            dev': Dev, open': seq<OpenInode>, lays': seq<Layout>, o': OpenInode)
  {
    && TableOk(dev, open, lays) && o'.sector in Keys(open)
    && dev' == dev && lays' == lays && open' == open[Find(open, o'.sector) := o']
    && TableOk(dev, open', lays)
    && Files(dev, open', lays) == Files(dev, open, lays)
    && Keys(open') == Keys(open) && Find(open', o'.sector) == Find(open, o'.sector)
  }

  /** The counts and flag o' may take for the open inode on its sector. */
  ghost predicate Recount(dev: Dev, open: seq<OpenInode>, lays: seq<Layout>, o': OpenInode)
  {
    && TableOk(dev, open, lays) && o'.sector in Keys(open)
    && o'.data == At(open, o'.sector).data
    && 0 < o'.openCnt && o'.denyWriteCnt <= o'.openCnt
  }

  /** The counts of an open inode are those of a member of the list. */
  lemma AtCounts(dev: Dev, open: seq<OpenInode>, lays: seq<Layout>, s: Sector)
    requires TableOk(dev, open, lays) && s in Keys(open)
    ensures 0 < At(open, s).openCnt && At(open, s).denyWriteCnt <= At(open, s).openCnt
  {
    assert Member(dev, At(open, s), lays[Find(open, s)]);
  }

  lemma RecountOk(dev: Dev, open: seq<OpenInode>, lays: seq<Layout>, dev': Dev, open': seq<OpenInode>, lays': seq<Layout>, o': OpenInode)
    requires Recount(dev, open, lays, o')
    requires dev' == dev && lays' == lays && open' == open[Find(open, o'.sector) := o']
    ensures Recounted(dev, open, lays, dev', open', lays', o')
  {
    var i := Find(open, o'.sector);
    TableCounts(dev, open, lays, i, o');
    KeysSame(open, open');
    TableUnique(dev, open', lays);
    FindAt(open', i);
  }

  // ---------------------------------------------------------------------
  // The steps of the list

  /** inode_open of sector s, with t and p the layout of the inode it
      holds: the open inode on s is opened once more, or a new one,
      opened once, denying no writes, not removed and holding the header
      read from s, goes to the front of the list, its bytes filed under
      s. */
  ghost predicate Opened(dev: Dev, open: seq<OpenInode>, lays: seq<Layout>,
                         dev': Dev, open': seq<OpenInode>, lays': seq<Layout>, s: Sector, t: Tree, p: nat)
  {
    && TableOk(dev, open, lays) && TableOk(dev', open', lays')
    && Keys(open') == Keys(open) + {s}
    && (s in Keys(open) ==> Recounted(dev, open, lays, dev', open', lays', Bumped(At(open, s))))
    && (s !in Keys(open) ==>
          && dev' == dev && Sectors(dev.disk)
          && open' == [OpenInode(s, 1, 0, false, DecodeInode(ReadSector(dev.disk, s)))] + open
          && lays' == [Layout(t, p)] + lays
          && Member(dev, open'[0], lays'[0])
          && Files(dev', open', lays') == Files(dev, open, lays)[s := Content(dev, s, open'[0].data, t, p)])
  }

  lemma OpenedOld(dev: Dev, open: seq<OpenInode>, lays: seq<Layout>, dev': Dev, open': seq<OpenInode>, lays': seq<Layout>, s: Sector, t: Tree, p: nat)
    requires s in Keys(open) && Recounted(dev, open, lays, dev', open', lays', Bumped(At(open, s)))
    ensures Opened(dev, open, lays, dev', open', lays', s, t, p)
  {
  }

  lemma OpenedNew(dev: Dev, open: seq<OpenInode>, lays: seq<Layout>, dev': Dev, open': seq<OpenInode>, lays': seq<Layout>,
                   s: Sector, t: Tree, p: nat)
    requires TableOk(dev, open, lays) && s !in Keys(open) && Openable(dev, open, lays, s, t, p)
    requires dev' == dev && open' == [OpenInode(s, 1, 0, false, DecodeInode(ReadSector(dev.disk, s)))] + open
    requires lays' == [Layout(t, p)] + lays
    ensures Opened(dev, open, lays, dev', open', lays', s, t, p)
  {
    var o := OpenInode(s, 1, 0, false, DecodeInode(ReadSector(dev.disk, s)));
    TablePush(dev, open, lays, o, Layout(t, p));
    KeysPush(open, o);
  }

  /** What inode_close of the i-th open inode leaves: one opener fewer;
      for the last, the inode unlinked and its bytes no longer filed and,
      when it was removed, its header sector and the sectors Freed names
      back in the free map. */
  ghost predicate Closed(dev: Dev, open: seq<OpenInode>, lays: seq<Layout>,
                         dev': Dev, open': seq<OpenInode>, lays': seq<Layout>, s: Sector)
  {
    && TableOk(dev, open, lays) && s in Keys(open) && TableOk(dev', open', lays')
    && var i := Find(open, s);
    && var o := open[i];
    && Shaped(lays[i].tree)
    && (o.openCnt > 1 ==> Recounted(dev, open, lays, dev', open', lays', o.(openCnt := o.openCnt - 1)))
    && (o.openCnt == 1 ==>
          && open' == Cut(open, i) && lays' == Cut(lays, i) && dev'.disk == dev.disk
          && Files(dev', open', lays') == Files(dev, open, lays) - {s}
          && dev'.free == dev.free + Freed(o, lays[i]))
  }

  /** The sectors the last close of o hands back: none unless it was
      removed; then its header sector and, for a length of at most
      N_LEVEL2 sectors, what do_inode_close releases. */
  ghost function Freed(o: OpenInode, l: Layout): set<Sector>
    requires Shaped(l.tree)
  {
    if !o.removed then {}
    else if o.data.length < 0 || BytesToSectors(o.data.length) > N_LEVEL2 then {o.sector}
    else {o.sector} + Released(l.tree, BytesToSectors(o.data.length))
  }

  /** The arguments do_inode_close gets from an open inode. */
  lemma CloseArgs(dev: Dev, open: seq<OpenInode>, lays: seq<Layout>, i: int)
    requires TableOk(dev, open, lays) && 0 <= i < |open|
    ensures Stored(dev.disk, open[i].data, lays[i].tree) && Filled(lays[i].tree, lays[i].size)
    ensures 0 <= open[i].data.length && BytesToSectors(open[i].data.length) <= lays[i].size
  {
    assert Member(dev, open[i], lays[i]);
  }

  lemma ClosedLast(dev: Dev, open: seq<OpenInode>, lays: seq<Layout>, i: int, dev': Dev)
    requires TableOk(dev, open, lays) && 0 <= i < |open| && open[i].openCnt == 1
    requires Shaped(lays[i].tree) && dev'.disk == dev.disk && dev'.free == dev.free + Freed(open[i], lays[i])
    ensures Closed(dev, open, lays, dev', Cut(open, i), Cut(lays, i), open[i].sector)
  {
    var o, l := open[i], lays[i];
    CloseArgs(dev, open, lays, i);
    if o.removed {
      ReleasedUsed(dev.disk, o.data, l.tree, l.size, BytesToSectors(o.data.length));
    }
    TableDrop(dev, open, lays, i, dev');
    TableUnique(dev, open, lays);
    FindAt(open, i);
  }

  lemma ClosedOne(dev: Dev, open: seq<OpenInode>, lays: seq<Layout>, dev': Dev, open': seq<OpenInode>, lays': seq<Layout>, s: Sector)
    requires s in Keys(open) && At(open, s).openCnt > 1
    requires Recounted(dev, open, lays, dev', open', lays', At(open, s).(openCnt := At(open, s).openCnt - 1))
    ensures Closed(dev, open, lays, dev', open', lays', s)
  {
    assert Member(dev, At(open, s), lays[Find(open, s)]);
  }

  /** What inode_write_at of buf at offset on the i-th open inode leaves,
      n being the count it returns: nothing changed when writes are
      denied; otherwise the write of FileWritten on that inode alone, its
      new bytes filed under its sector, and the other open inodes kept. */
  ghost predicate Wrote(dev: Dev, open: seq<OpenInode>, lays: seq<Layout>,
                        dev': Dev, open': seq<OpenInode>, lays': seq<Layout>, s: Sector, buf: seq<byte>, offset: nat, n: int)
  {
    && TableOk(dev, open, lays) && s in Keys(open) && TableOk(dev', open', lays')
    && var i := Find(open, s);
    && var o, c := open[i], Files(dev, open, lays)[s];
    && (o.denyWriteCnt > 0 ==> n == 0 && dev' == dev && open' == open && lays' == lays)
    && (o.denyWriteCnt == 0 ==>
          && |open'| == |open| && open' == open[i := o.(data := open'[i].data)]
          && Keys(open') == Keys(open) && Find(open', s) == i
          && FileWritten(dev, s, o.data, lays[i].tree, lays[i].size, buf, offset, n, open'[i].data, dev', lays'[i].tree, lays'[i].size)
          && Files(dev', open', lays') == Files(dev, open, lays)[s := if n == |buf| then Written(c, offset, buf) else c])
  }

  lemma WroteDone(dev: Dev, open: seq<OpenInode>, lays: seq<Layout>, dev': Dev, open': seq<OpenInode>, lays': seq<Layout>,
                  s: Sector, buf: seq<byte>, offset: nat, n: int, h': InodeDisk, t': Tree, p': nat)
    requires TableOk(dev, open, lays) && s in Keys(open) && At(open, s).denyWriteCnt == 0
    requires FileWritten(dev, s, At(open, s).data, lays[Find(open, s)].tree, lays[Find(open, s)].size, buf, offset, n, h', dev', t', p')
    requires open' == open[Find(open, s) := At(open, s).(data := h')] && lays' == lays[Find(open, s) := Layout(t', p')]
    ensures Wrote(dev, open, lays, dev', open', lays', s, buf, offset, n)
  {
    var i := Find(open, s);
    var o', l' := open[i].(data := h'), Layout(t', p');
    assert Member(dev, open[i], lays[i]);
    assert Member(dev', o', l');
    TableReplace(dev, open, lays, i, dev', o', l');
    KeysSame(open, open');
    TableUnique(dev', open', lays');
    FindAt(open', i);
  }

  lemma WroteDenied(dev: Dev, open: seq<OpenInode>, lays: seq<Layout>, s: Sector, buf: seq<byte>, offset: nat)
    requires TableOk(dev, open, lays) && s in Keys(open) && At(open, s).denyWriteCnt > 0
    ensures Wrote(dev, open, lays, dev, open, lays, s, buf, offset, 0)
  {
  }

  /** inode_write_at on the open inode on sector s: nothing while writes
      are denied, otherwise InodeData.WriteAt on its header and layout. */
  method WriteOpen(dev: Dev, open: seq<OpenInode>, ghost lays: seq<Layout>, s: Sector, buf: seq<byte>, offset: int)
    returns (n: int, dev': Dev, open': seq<OpenInode>, ghost lays': seq<Layout>)
    requires TableOk(dev, open, lays) && s in Keys(open) && offset >= 0 && offset + |buf| < 0x8000_0000
    ensures Wrote(dev, open, lays, dev', open', lays', s, buf, offset, n)
  {
    var i := Find(open, s);
    if open[i].denyWriteCnt > 0 {
      WroteDenied(dev, open, lays, s, buf, offset);
      return 0, dev, open, lays;
    }
    assert Member(dev, open[i], lays[i]);
    var h';
    ghost var t', p';
    n, h', dev', t', p' := InodeData.WriteAt(dev, open[i].data, buf, offset, s, lays[i].tree, lays[i].size);
    open' := open[i := open[i].(data := h')];
    lays' := lays[i := Layout(t', p')];
    WroteDone(dev, open, lays, dev', open', lays', s, buf, offset, n, h', t', p');
  }
}
