/** Growing and releasing the sectors of an inode (filesys/inode.c,
    do_inode_create_sector, do_inode_create and do_inode_close). The
    block device and the free map are one value, Dev, threaded through
    the calls; free_map_allocate takes some free sector (which one is
    the free map's business, filesys/free-map.c is not part of this
    model). The header being grown is passed in and handed back, as the
    source updates the struct inode_disk it is given. Each method also
    hands back, as ghost results, the tree the disk now stores and how
    many data sectors it has. */
module InodeGrow {
  import opened Bytes
  import opened Block
  import opened InodeLayout
  import opened InodeTree

  /** The file-system device and the free map. */
  datatype Dev = Dev(disk: Disk, free: set<Sector>)

  function Max(a: nat, b: nat): nat
  {
    if a < b then b else a
  }

  /** Sector 0 holds the free map and is never free. */
  ghost predicate DevOk(dev: Dev)
  {
    Sectors(dev.disk) && 0 !in dev.free && forall s :: s in dev.free ==> s < NO_SECTOR
  }

  /** An allocated second level index sector names at least one data
      sector: do_inode_create records one only after filling it. */
  ghost predicate MidFilled(t: Tree)
    requires Shaped(t)
  {
    forall j :: 0 <= j < N_INDIRECT && t.mid[j] != 0 ==> t.data[N_LEVEL1 + N_INDIRECT * j] != 0
  }

  /** The disk changed only at sectors that were free or index sectors of
      t. */
  ghost predicate Untouched(dev0: Dev, t0: Tree, dev: Dev)
  {
    forall s :: s !in dev0.free && !Meta(t0, s) ==> ReadSector(dev.disk, s) == ReadSector(dev0.disk, s)
  }

  /** The tree t with p data sectors grew out of t0 with p0: the old data
      sectors are kept, the new ones were free and read as zeros, the new
      index sectors were free, and the free set only shrank. */
  ghost predicate Grown(dev0: Dev, t0: Tree, p0: nat, dev: Dev, t: Tree, p: nat, hdr: Sector)
  {
    && DevOk(dev) && dev.free <= dev0.free && p0 <= p
    && Filled(t0, p0) && Filled(t, p) && Owned(t, hdr, dev.free)
    && (forall k :: 0 <= k < p0 ==> t.data[k] == t0.data[k])
    && (forall k :: p0 <= k < p ==> t.data[k] in dev0.free && ReadSector(dev.disk, t.data[k]) == Zeros(SECTOR_SIZE))
    && (forall s :: Meta(t, s) ==> Meta(t0, s) || s in dev0.free)
    && Untouched(dev0, t0, dev)
  }

  /** What every growth step starts from. */
  ghost predicate Ready(dev: Dev, h: InodeDisk, t: Tree, p: nat, hdr: Sector)
  {
    && DevOk(dev) && hdr !in dev.free
    && Stored(dev.disk, h, t) && Filled(t, p) && MidFilled(t) && Owned(t, hdr, dev.free)
  }

  /** The stored tree t with p data sectors, reached from t0 with p0. */
  ghost predicate Extends(dev0: Dev, t0: Tree, p0: nat, dev: Dev, h: InodeDisk, t: Tree, p: nat, hdr: Sector)
  {
    Ready(dev, h, t, p, hdr) && Grown(dev0, t0, p0, dev, t, p, hdr)
  }

  // ---------------------------------------------------------------------
  // Lemmas

  lemma GrownRefl(dev: Dev, t: Tree, p: nat, hdr: Sector)
    requires DevOk(dev) && Filled(t, p) && Owned(t, hdr, dev.free)
    ensures Grown(dev, t, p, dev, t, p, hdr)
  {
  }

  lemma ExtendsRefl(dev: Dev, h: InodeDisk, t: Tree, p: nat, hdr: Sector)
    requires Ready(dev, h, t, p, hdr)
    ensures Extends(dev, t, p, dev, h, t, p, hdr)
  {
  }

  lemma {:induction false} GrownTrans(dev0: Dev, t0: Tree, p0: nat, dev1: Dev, t1: Tree, p1: nat,
                                      dev2: Dev, t2: Tree, p2: nat, hdr: Sector)
    requires Grown(dev0, t0, p0, dev1, t1, p1, hdr) && Grown(dev1, t1, p1, dev2, t2, p2, hdr)
    ensures Grown(dev0, t0, p0, dev2, t2, p2, hdr)
  {
    forall k | p0 <= k < p2
      ensures t2.data[k] in dev0.free && ReadSector(dev2.disk, t2.data[k]) == Zeros(SECTOR_SIZE)
    {
      if k < p1 {
        assert Flat(t1)[k] == t1.data[k];
        NotMeta(t1, hdr, dev1.free, t1.data[k]);
      }
    }
  }

  /** A smaller free set keeps a tree owned. */
  lemma OwnedLess(t: Tree, hdr: Sector, free: set<Sector>, free': set<Sector>)
    requires Owned(t, hdr, free) && free' <= free
    ensures Owned(t, hdr, free')
  {
  }

  /** Allocating the first unallocated data sector with a free sector. */
  lemma TakeData(t: Tree, p: nat, x: Sector, hdr: Sector, free: set<Sector>)
    requires Filled(t, p) && p < N_LEVEL2 && Owned(t, hdr, free)
    requires x in free && x != 0 && x != hdr && x < NO_SECTOR
    ensures Filled(t.(data := t.data[p := x]), p + 1)
    ensures Owned(t.(data := t.data[p := x]), hdr, free - {x})
  {
    FlatData(t, p, x);
    TakeFresh(Flat(t), p, x, hdr, free);
  }

  // ---------------------------------------------------------------------
  // do_inode_create_sector

  /** A pointer slot that is 0 gets a free sector, zero-filled; any other
      is left as it is. */
  method CreateSector(dev: Dev, ptr: Sector) returns (ok: bool, r: Sector, dev': Dev)
    requires DevOk(dev)
    ensures DevOk(dev')
    ensures ptr != 0 ==> ok && r == ptr && dev' == dev
    ensures ptr == 0 && ok ==>
      (r in dev.free && dev'.free == dev.free - {r}
       && dev'.disk == WriteSector(dev.disk, r, Zeros(SECTOR_SIZE)))
    ensures ptr == 0 && !ok ==> dev.free == {} && dev' == dev && r == 0
  {
    if ptr != 0 {
      return true, ptr, dev;
    }
    if dev.free == {} {
      return false, 0, dev;
    }
    var s :| s in dev.free;
    dev' := Dev(WriteSector(dev.disk, s, Zeros(SECTOR_SIZE)), dev.free - {s});
    return true, s, dev';
  }

  /** A zero-fill of a free sector leaves the trees and data there are. */
  lemma ZeroFillKeeps(dev: Dev, h: InodeDisk, t: Tree, hdr: Sector, x: Sector)
    requires DevOk(dev) && Stored(dev.disk, h, t) && Owned(t, hdr, dev.free) && x in dev.free
    ensures Stored(WriteSector(dev.disk, x, Zeros(SECTOR_SIZE)), h, t)
  {
    NotMeta(t, hdr, dev.free, x);
    WriteKeepsStored(dev.disk, h, t, x, Zeros(SECTOR_SIZE));
  }

  // ---------------------------------------------------------------------
  // Level 0

  /** Allocating direct pointer p with the free sector x. */
  lemma AllocDirect(dev: Dev, h: InodeDisk, t: Tree, p: nat, hdr: Sector, x: Sector)
    requires Ready(dev, h, t, p, hdr) && p < N_LEVEL0 && x in dev.free
    ensures var dev2 := Dev(WriteSector(dev.disk, x, Zeros(SECTOR_SIZE)), dev.free - {x});
      var t2 := t.(data := t.data[p := x]);
      Ready(dev2, h.(blocks := h.blocks[p := x]), t2, p + 1, hdr)
      && Grown(dev, t, p, dev2, t2, p + 1, hdr)
  {
    var dev2 := Dev(WriteSector(dev.disk, x, Zeros(SECTOR_SIZE)), dev.free - {x});
    var t2 := t.(data := t.data[p := x]);
    TakeData(t, p, x, hdr, dev.free);
    ZeroFillKeeps(dev, h, t, hdr, x);
    DirectStored(dev2.disk, h, t, p, x);
    NotMeta(t, hdr, dev.free, x);
    assert MidFilled(t2);
    assert Grown(dev, t, p, dev2, t2, p + 1, hdr);
  }

  /** Allocating direct pointer p' extends a growth from t. */
  lemma ExtendsDirect(dev: Dev, t: Tree, p: nat, dev': Dev, h': InodeDisk, t': Tree, p': nat, hdr: Sector, x: Sector)
    requires Extends(dev, t, p, dev', h', t', p', hdr) && p' < N_LEVEL0 && x in dev'.free
    ensures Extends(dev, t, p, Dev(WriteSector(dev'.disk, x, Zeros(SECTOR_SIZE)), dev'.free - {x}),
                    h'.(blocks := h'.blocks[p' := x]), t'.(data := t'.data[p' := x]), p' + 1, hdr)
  {
    var dev2 := Dev(WriteSector(dev'.disk, x, Zeros(SECTOR_SIZE)), dev'.free - {x});
    AllocDirect(dev', h', t', p', hdr, x);
    GrownTrans(dev, t, p, dev', t', p', dev2, t'.(data := t'.data[p' := x]), p' + 1, hdr);
  }

  /** Setting a direct pointer in the header and the tree alike. */
  lemma DirectStored(d: Disk, h: InodeDisk, t: Tree, k: nat, x: Sector)
    requires Stored(d, h, t) && k < N_LEVEL0
    ensures Stored(d, h.(blocks := h.blocks[k := x]), t.(data := t.data[k := x]))
  {
    var h2 := h.(blocks := h.blocks[k := x]);
    var t2 := t.(data := t.data[k := x]);
    assert h2.blocks[..N_LEVEL0] == t2.data[..N_LEVEL0];
    forall j | 0 <= j < N_INDIRECT
      ensures Leaf(t2, j) == Leaf(t, j)
    {
    }
    assert t2.data[N_LEVEL0..N_LEVEL1] == t.data[N_LEVEL0..N_LEVEL1];
  }

  /** The direct part of do_inode_create: direct pointers 0 .. n-1. */
  method CreateDirect(dev: Dev, h: InodeDisk, n: nat, ghost hdr: Sector, ghost t: Tree, ghost p: nat)
    returns (ok: bool, h': InodeDisk, dev': Dev, ghost t': Tree, ghost p': nat)
    requires n <= N_LEVEL0 && Ready(dev, h, t, p, hdr)
    ensures Extends(dev, t, p, dev', h', t', p', hdr) && t'.ind == t.ind && t'.dbl == t.dbl
    ensures h'.length == h.length && h'.isDir == h.isDir && h'.magic == h.magic
    ensures p' <= Max(p, n) && (ok ==> p' >= n)
    ensures !ok ==> dev'.free == {}
  {
    h', dev', t', p' := h, dev, t, p;
    GrownRefl(dev, t, p, hdr);
    var i := 0;
    while i < n
      invariant i <= n && Extends(dev, t, p, dev', h', t', p', hdr)
      invariant h'.length == h.length && h'.isDir == h.isDir && h'.magic == h.magic
      invariant t'.ind == t.ind && t'.dbl == t.dbl
      invariant i <= p' <= Max(p, i)
    {
      assert h'.blocks[..N_LEVEL0][i] == t'.data[..N_LEVEL0][i];
      var okSector, s, dev2 := CreateSector(dev', h'.blocks[i]);
      if !okSector {
        return false, h', dev', t', p';
      }
      if h'.blocks[i] == 0 {
        assert i == p';
        ExtendsDirect(dev, t, p, dev', h', t', p', hdr, s);
        h', dev', t', p' := h'.(blocks := h'.blocks[i := s]), dev2, t'.(data := t'.data[i := s]), p' + 1;
      }
      i := i + 1;
    }
    ok := true;
  }

  // ---------------------------------------------------------------------
  // Level 1

  /** A zero-fill of a free sector is a growth step that changes no
      tree. */
  lemma ZeroFillGrown(dev: Dev, t: Tree, p: nat, hdr: Sector, x: Sector)
    requires DevOk(dev) && Filled(t, p) && Owned(t, hdr, dev.free) && x in dev.free
    ensures Grown(dev, t, p, Dev(WriteSector(dev.disk, x, Zeros(SECTOR_SIZE)), dev.free - {x}), t, p, hdr)
  {
  }

  /** A zero-fill of a free sector keeps a growth relation. */
  lemma ExtendsZeroFill(dev0: Dev, t0: Tree, p0: nat, dev: Dev, h: InodeDisk, t: Tree, p: nat, hdr: Sector, x: Sector)
    requires Extends(dev0, t0, p0, dev, h, t, p, hdr) && x in dev.free
    ensures Extends(dev0, t0, p0, Dev(WriteSector(dev.disk, x, Zeros(SECTOR_SIZE)), dev.free - {x}), h, t, p, hdr)
  {
    ZeroFillGrown(dev, t, p, hdr, x);
    GrownTrans(dev0, t0, p0, dev, t, p, Dev(WriteSector(dev.disk, x, Zeros(SECTOR_SIZE)), dev.free - {x}), t, p, hdr);
    ZeroFillKeeps(dev, h, t, hdr, x);
  }

  /** Allocating an absent indirect sector with the free sector x: its
      zeros name no data sector, as the tree already says. */
  lemma AllocIndirect(dev: Dev, h: InodeDisk, t: Tree, p: nat, hdr: Sector, x: Sector)
    requires Ready(dev, h, t, p, hdr) && t.ind == 0 && x in dev.free
    ensures Extends(dev, t, p, Dev(WriteSector(dev.disk, x, Zeros(SECTOR_SIZE)), dev.free - {x}),
                    h.(blocks := h.blocks[INDIRECT_SLOT := x]), t.(ind := x), p, hdr)
  {
    var d2 := WriteSector(dev.disk, x, Zeros(SECTOR_SIZE));
    var t2 := t.(ind := x);
    var h2 := h.(blocks := h.blocks[INDIRECT_SLOT := x]);
    ZeroFillKeeps(dev, h, t, hdr, x);
    FlatInd(t, x);
    TakeFresh(Flat(t), IND_AT, x, hdr, dev.free);
    IndexOfZeros();
    assert IndexOf(ReadSector(d2, x)) == t.data[N_LEVEL0..N_LEVEL1];
    assert h2.blocks[..N_LEVEL0] == h.blocks[..N_LEVEL0];
    assert Stored(d2, h2, t2);
  }

  /** The tree t with the entries of its indirect sector replaced by
      block. */
  function WithIndirect(t: Tree, block: seq<Sector>): (r: Tree)
    requires Shaped(t) && |block| == N_INDIRECT
    ensures Shaped(r) && r.data[N_LEVEL0..N_LEVEL1] == block
  {
    t.(data := t.data[..N_LEVEL0] + block + t.data[N_LEVEL1..])
  }

  /** Allocating the first unallocated data sector with the free sector
      x is a growth step. */
  lemma AllocData(dev: Dev, t: Tree, pm: nat, hdr: Sector, x: Sector)
    requires DevOk(dev) && Filled(t, pm) && pm < N_LEVEL2
    requires Owned(t, hdr, dev.free) && x in dev.free && hdr !in dev.free
    ensures var dev2 := Dev(WriteSector(dev.disk, x, Zeros(SECTOR_SIZE)), dev.free - {x});
      Grown(dev, t, pm, dev2, t.(data := t.data[pm := x]), pm + 1, hdr)
  {
    TakeData(t, pm, x, hdr, dev.free);
    NotMeta(t, hdr, dev.free, x);
  }

  lemma WithOwnIndirect(t: Tree)
    requires Shaped(t)
    ensures WithIndirect(t, t.data[N_LEVEL0..N_LEVEL1]) == t
  {
    assert t.data[..N_LEVEL0] + t.data[N_LEVEL0..N_LEVEL1] + t.data[N_LEVEL1..] == t.data;
  }

  /** Allocating entry i of the indirect sector held in memory. */
  lemma AllocIndirectEntry(dev: Dev, t: Tree, block: seq<Sector>, pm: nat, hdr: Sector, i: nat, x: Sector)
    requires DevOk(dev) && Shaped(t) && |block| == N_INDIRECT && i < N_INDIRECT
    requires Filled(WithIndirect(t, block), pm) && pm == N_LEVEL0 + i
    requires Owned(WithIndirect(t, block), hdr, dev.free) && x in dev.free && hdr !in dev.free
    ensures var dev2 := Dev(WriteSector(dev.disk, x, Zeros(SECTOR_SIZE)), dev.free - {x});
      Grown(dev, WithIndirect(t, block), pm, dev2, WithIndirect(t, block[i := x]), pm + 1, hdr)
  {
    var tm := WithIndirect(t, block);
    assert WithIndirect(t, block[i := x]) == tm.(data := tm.data[pm := x]);
    AllocData(dev, tm, pm, hdr, x);
  }

  /** Replacing the indirect entries leaves the second level alone. */
  lemma LeafWithIndirect(t: Tree, block: seq<Sector>, j: nat)
    requires Shaped(t) && |block| == N_INDIRECT && j < N_INDIRECT
    ensures Leaf(WithIndirect(t, block), j) == Leaf(t, j)
  {
  }

  /** The second level index sectors of t other than l hold their
      leaves (l == N_INDIRECT excludes none). */
  ghost predicate LeavesHeld(d: Disk, t: Tree, l: nat)
    requires Sectors(d) && Shaped(t)
  {
    forall j :: 0 <= j < N_INDIRECT && j != l ==> Holds(d, t.mid[j], Leaf(t, j))
  }

  /** Writing a sector that is none of those second level sectors keeps
      them held, and so for any tree with the same second level. */
  lemma LeavesKept(d: Disk, t: Tree, t2: Tree, l: nat, s: Sector, b: seq<byte>)
    requires Sectors(d) && Shaped(t) && Shaped(t2) && |b| == SECTOR_SIZE
    requires forall j :: 0 <= j < N_INDIRECT && j != l ==> t.mid[j] != s
    requires forall j :: 0 <= j < N_INDIRECT && j != l ==> t2.mid[j] == t.mid[j] && Leaf(t2, j) == Leaf(t, j)
    requires LeavesHeld(d, t, l)
    ensures LeavesHeld(WriteSector(d, s, b), t2, l)
  {
  }

  /** The indirect sector of a distinct tree is none of its other index
      sectors. */
  lemma IndApart(t: Tree)
    requires Shaped(t) && Distinct(Flat(t)) && t.ind != 0
    ensures t.ind != t.dbl && forall j :: 0 <= j < N_INDIRECT ==> t.mid[j] != t.ind
  {
    var f := Flat(t);
    assert f[IND_AT] == t.ind && f[DBL_AT] == t.dbl;
    assert forall j :: 0 <= j < N_INDIRECT ==> f[MID_AT + j] == t.mid[j];
  }

  /** Writing the indirect sector held in memory back to its sector
      stores the tree in full. */
  lemma StoreIndirect(d: Disk, h: InodeDisk, t: Tree, block: seq<Sector>)
    requires Stored(d, h, t) && t.ind != 0 && |block| == N_INDIRECT
    requires Distinct(Flat(WithIndirect(t, block)))
    requires forall i :: 0 <= i < N_INDIRECT ==> block[i] < WORD_LIMIT
    ensures Stored(WriteSector(d, t.ind, IndexBytes(block)), h, WithIndirect(t, block))
  {
    var tm := WithIndirect(t, block);
    var b := IndexBytes(block);
    IndexRoundTrip(block);
    IndApart(tm);
    forall j | 0 <= j < N_INDIRECT
      ensures Leaf(tm, j) == Leaf(t, j)
    {
      LeafWithIndirect(t, block, j);
    }
    LeavesKept(d, t, tm, N_INDIRECT, t.ind, b);
    assert tm.data[..N_LEVEL0] == t.data[..N_LEVEL0];
  }

  /** Writing an index sector of t is a growth step that changes no
      tree. */
  lemma MetaWriteGrown(dev: Dev, t: Tree, p: nat, hdr: Sector, s: Sector, b: seq<byte>)
    requires DevOk(dev) && Filled(t, p) && Owned(t, hdr, dev.free) && Meta(t, s) && |b| == SECTOR_SIZE
    ensures Grown(dev, t, p, Dev(WriteSector(dev.disk, s, b), dev.free), t, p, hdr)
  {
    forall k | 0 <= k < N_LEVEL2 && t.data[k] != 0
      ensures t.data[k] != s
    {
      NotMeta(t, hdr, dev.free, t.data[k]);
    }
  }

  /** The state of the indirect loop of do_inode_create: the disk stores
      t1, and tm, the tree with the entries held in memory, is what it
      will store once they are written back. */
  ghost predicate IndirectLoop(dev0: Dev, t0: Tree, p0: nat, dev: Dev, h1: InodeDisk, t1: Tree, p1: nat,
                               block: seq<Sector>, pm: nat, hdr: Sector)
  {
    && Extends(dev0, t0, p0, dev, h1, t1, p1, hdr) && t1.ind != 0
    && |block| == N_INDIRECT && Grown(dev0, t0, p0, dev, WithIndirect(t1, block), pm, hdr)
  }

  /** One turn of the indirect loop: entry i of the index sector held in
      memory gets a data sector unless it has one. */
  method IndirectEntry(dev: Dev, block: seq<Sector>, i: nat, ghost dev0: Dev, ghost t0: Tree, ghost p0: nat,
                       ghost h1: InodeDisk, ghost t1: Tree, ghost p1: nat, ghost pm: nat, ghost hdr: Sector)
    returns (ok: bool, block': seq<Sector>, dev': Dev, ghost pm': nat)
    requires IndirectLoop(dev0, t0, p0, dev, h1, t1, p1, block, pm, hdr) && i < N_INDIRECT
    requires pm >= N_LEVEL0 + i || dev.free == {}
    ensures IndirectLoop(dev0, t0, p0, dev', h1, t1, p1, block', pm', hdr)
    ensures pm' <= Max(pm, N_LEVEL0 + i + 1) && (ok ==> pm' >= N_LEVEL0 + i + 1)
    ensures !ok ==> dev'.free == {}
  {
    var s;
    ok, s, dev' := CreateSector(dev, block[i]);
    if !ok {
      return false, block, dev, pm;
    }
    ghost var tm := WithIndirect(t1, block);
    assert tm.data[N_LEVEL0 + i] == block[i];
    if block[i] == 0 {
      AllocIndirectEntry(dev, t1, block, pm, hdr, i, s);
      GrownTrans(dev0, t0, p0, dev, tm, pm, dev', WithIndirect(t1, block[i := s]), pm + 1, hdr);
      ExtendsZeroFill(dev0, t0, p0, dev, h1, t1, p1, hdr, s);
      return true, block[i := s], dev', pm + 1;
    }
    return true, block, dev, pm;
  }

  /** Writing the index sector held in memory back ends the indirect loop
      with the pending tree stored. */
  lemma IndirectWrittenBack(dev0: Dev, t0: Tree, p0: nat, dev: Dev, h1: InodeDisk, t1: Tree, p1: nat,
                            block: seq<Sector>, pm: nat, hdr: Sector)
    requires IndirectLoop(dev0, t0, p0, dev, h1, t1, p1, block, pm, hdr)
    ensures forall i :: 0 <= i < N_INDIRECT ==> block[i] < WORD_LIMIT
    ensures var dev2 := Dev(WriteSector(dev.disk, t1.ind, IndexBytes(block)), dev.free);
      Ready(dev2, h1, WithIndirect(t1, block), pm, hdr) && Grown(dev0, t0, p0, dev2, WithIndirect(t1, block), pm, hdr)
  {
    var tm := WithIndirect(t1, block);
    forall i | 0 <= i < N_INDIRECT
      ensures block[i] < WORD_LIMIT
    {
      assert Flat(tm)[N_LEVEL0 + i] == block[i];
    }
    StoreIndirect(dev.disk, h1, t1, block);
    assert Flat(tm)[IND_AT] == t1.ind;
    MetaWriteGrown(dev, tm, pm, hdr, t1.ind, IndexBytes(block));
    var dev2 := Dev(WriteSector(dev.disk, t1.ind, IndexBytes(block)), dev.free);
    GrownTrans(dev0, t0, p0, dev, tm, pm, dev2, tm, pm, hdr);
    assert MidFilled(tm);
  }

  /** The indirect sector, allocated if absent, and its entries read
      into memory. */
  method OpenIndirect(dev: Dev, h: InodeDisk, ghost hdr: Sector, ghost t: Tree, ghost p: nat)
    returns (ok: bool, h1: InodeDisk, dev1: Dev, block: seq<Sector>, ghost t1: Tree)
    requires Ready(dev, h, t, p, hdr)
    ensures ok ==> IndirectLoop(dev, t, p, dev1, h1, t1, p, block, p, hdr)
    ensures ok ==> h1.length == h.length && h1.isDir == h.isDir && h1.magic == h.magic
    ensures ok ==> h1.blocks[INDIRECT_SLOT] == t1.ind && t1.dbl == t.dbl
    ensures !ok ==> dev.free == {}
  {
    var ind;
    ok, ind, dev1 := CreateSector(dev, h.blocks[INDIRECT_SLOT]);
    if !ok {
      return false, h, dev, [], t;
    }
    h1 := h.(blocks := h.blocks[INDIRECT_SLOT := ind]);
    t1 := t.(ind := ind);
    if h.blocks[INDIRECT_SLOT] == 0 {
      AllocIndirect(dev, h, t, p, hdr, ind);
    } else {
      assert h1 == h && t1 == t;
      ExtendsRefl(dev, h, t, p, hdr);
    }
    assert Extends(dev, t, p, dev1, h1, t1, p, hdr);
    block := IndexOf(ReadSector(dev1.disk, ind));
    assert block == t1.data[N_LEVEL0..N_LEVEL1];
    WithOwnIndirect(t1);
  }

  /** The indirect part of do_inode_create: data sectors N_LEVEL0 .. n-1
      through the indirect sector. */
  method CreateIndirect(dev: Dev, h: InodeDisk, n: nat, ghost hdr: Sector, ghost t: Tree, ghost p: nat)
    returns (ok: bool, h': InodeDisk, dev': Dev, ghost t': Tree, ghost p': nat)
    requires N_LEVEL0 < n <= N_LEVEL1 && Ready(dev, h, t, p, hdr)
    requires p >= N_LEVEL0 || dev.free == {}
    ensures Extends(dev, t, p, dev', h', t', p', hdr) && t'.dbl == t.dbl
    ensures h'.length == h.length && h'.isDir == h.isDir && h'.magic == h.magic
    ensures p' <= Max(p, n) && (ok ==> p' >= n)
    ensures !ok ==> dev'.free == {}
  {
    var okS, h1, dev1, block, t1 := OpenIndirect(dev, h, hdr, t, p);
    if !okS {
      GrownRefl(dev, t, p, hdr);
      return false, h, dev, t, p;
    }
    h' := h1;
    dev' := dev1;
    ghost var pm: nat := p;
    var i := 0;
    while i < n - N_LEVEL0
      invariant i <= n - N_LEVEL0
      invariant IndirectLoop(dev, t, p, dev', h', t1, p, block, pm, hdr)
      invariant pm >= N_LEVEL0 + i || (i == 0 && dev'.free == {})
      invariant pm <= Max(p, N_LEVEL0 + i)
    {
      var okE;
      okE, block, dev', pm := IndirectEntry(dev', block, i, dev, t, p, h', t1, p, pm, hdr);
      if !okE {
        return false, h', dev', t1, p;
      }
      i := i + 1;
    }
    IndirectWrittenBack(dev, t, p, dev', h', t1, p, block, pm, hdr);
    dev' := Dev(WriteSector(dev'.disk, h'.blocks[INDIRECT_SLOT], IndexBytes(block)), dev'.free);
    t', p' := WithIndirect(t1, block), pm;
    ok := true;
  }

  // ---------------------------------------------------------------------
  // Level 2

  /** The first data sector number reached through second level index
      sector l. */
  function Base(l: nat): nat
  {
    N_LEVEL1 + N_INDIRECT * l
  }

  /** Every leaf lies within level 2. */
  lemma BaseBelow(l: nat)
    requires l < N_INDIRECT
    ensures Base(l) + N_INDIRECT <= N_LEVEL2 && Base(l) < Base(l + 1)
  {
    assert N_INDIRECT * l <= N_INDIRECT * (N_INDIRECT - 1);
  }

  /** Setting entry i of leaf l changes that leaf alone. */
  lemma LeafSet(t: Tree, l: nat, i: nat, x: Sector)
    requires Shaped(t) && l < N_INDIRECT && i < N_INDIRECT
    ensures var t2 := t.(data := t.data[Base(l) + i := x]);
      && Leaf(t2, l) == Leaf(t, l)[i := x]
      && (forall j :: 0 <= j < N_INDIRECT && j != l ==> Leaf(t2, j) == Leaf(t, j))
      && t2.data[..N_LEVEL1] == t.data[..N_LEVEL1]
  {
    var t2 := t.(data := t.data[Base(l) + i := x]);
    forall j | 0 <= j < N_INDIRECT && j != l
      ensures Leaf(t2, j) == Leaf(t, j)
    {
      assert j < l || l < j;
    }
  }

  /** The first two levels of tp are those of ts. */
  ghost predicate Lower(ts: Tree, tp: Tree)
  {
    && Shaped(ts) && Shaped(tp)
    && tp.data[..N_LEVEL1] == ts.data[..N_LEVEL1] && tp.ind == ts.ind && tp.dbl == ts.dbl
  }

  /** The state of the loop over one leaf of do_inode_create: the disk
      stores ts; tp is the tree with the entries held in memory, leaf l
      being the one being filled, and every other leaf of tp is on
      disk. */
  ghost predicate LeafLoop(dev0: Dev, t0: Tree, p0: nat, dev: Dev, h1: InodeDisk, ts: Tree, ps: nat,
                           tp: Tree, l: nat, leaf: seq<Sector>, pm: nat, hdr: Sector)
  {
    && Extends(dev0, t0, p0, dev, h1, ts, ps, hdr) && ts.dbl != 0
    && Grown(dev0, t0, p0, dev, tp, pm, hdr) && l < N_INDIRECT && tp.mid[l] != 0 && Leaf(tp, l) == leaf
    && Lower(ts, tp) && LeavesHeld(dev.disk, tp, l)
  }

  /** Allocating entry i of the leaf held in memory with the free sector
      s. */
  lemma LeafAlloc(dev0: Dev, t0: Tree, p0: nat, dev: Dev, h1: InodeDisk, ts: Tree, ps: nat,
                  tp: Tree, l: nat, leaf: seq<Sector>, pm: nat, hdr: Sector, i: nat, s: Sector)
    requires LeafLoop(dev0, t0, p0, dev, h1, ts, ps, tp, l, leaf, pm, hdr) && i < N_INDIRECT
    requires pm == Base(l) + i && s in dev.free
    ensures LeafLoop(dev0, t0, p0, Dev(WriteSector(dev.disk, s, Zeros(SECTOR_SIZE)), dev.free - {s}), h1, ts, ps,
                     tp.(data := tp.data[pm := s]), l, leaf[i := s], pm + 1, hdr)
  {
    var dev' := Dev(WriteSector(dev.disk, s, Zeros(SECTOR_SIZE)), dev.free - {s});
    var tp' := tp.(data := tp.data[pm := s]);
    AllocData(dev, tp, pm, hdr, s);
    GrownTrans(dev0, t0, p0, dev, tp, pm, dev', tp', pm + 1, hdr);
    ExtendsZeroFill(dev0, t0, p0, dev, h1, ts, ps, hdr, s);
    LeafSet(tp, l, i, s);
    NotMeta(tp, hdr, dev.free, s);
    LeavesKept(dev.disk, tp, tp', l, s, Zeros(SECTOR_SIZE));
  }

  /** One turn of the loop over a leaf: entry i gets a data sector unless
      it has one. */
  method LeafEntry(dev: Dev, leaf: seq<Sector>, i: nat, ghost dev0: Dev, ghost t0: Tree, ghost p0: nat,
                   ghost h1: InodeDisk, ghost ts: Tree, ghost ps: nat, ghost tp: Tree, ghost l: nat,
                   ghost pm: nat, ghost hdr: Sector)
    returns (ok: bool, leaf': seq<Sector>, dev': Dev, ghost tp': Tree, ghost pm': nat)
    requires LeafLoop(dev0, t0, p0, dev, h1, ts, ps, tp, l, leaf, pm, hdr) && i < N_INDIRECT
    requires pm >= Base(l) + i || dev.free == {}
    ensures LeafLoop(dev0, t0, p0, dev', h1, ts, ps, tp', l, leaf', pm', hdr) && tp'.mid == tp.mid && pm <= pm'
    ensures pm' <= Max(pm, Base(l) + i + 1) && (ok ==> pm' >= Base(l) + i + 1)
    ensures !ok ==> dev'.free == {}
  {
    var s;
    ok, s, dev' := CreateSector(dev, leaf[i]);
    if !ok {
      return false, leaf, dev, tp, pm;
    }
    assert tp.data[Base(l) + i] == leaf[i];
    if leaf[i] == 0 {
      tp' := tp.(data := tp.data[pm := s]);
      LeafAlloc(dev0, t0, p0, dev, h1, ts, ps, tp, l, leaf, pm, hdr, i, s);
      return true, leaf[i := s], dev', tp', pm + 1;
    }
    return true, leaf, dev, tp, pm;
  }

  /** The loop over one leaf: its first remain entries. */
  method FillLeaf(dev: Dev, leaf: seq<Sector>, remain: nat, ghost dev0: Dev, ghost t0: Tree, ghost p0: nat,
                  ghost h1: InodeDisk, ghost ts: Tree, ghost ps: nat, ghost tp: Tree, ghost l: nat,
                  ghost pm: nat, ghost hdr: Sector)
    returns (ok: bool, leaf': seq<Sector>, dev': Dev, ghost tp': Tree, ghost pm': nat)
    requires LeafLoop(dev0, t0, p0, dev, h1, ts, ps, tp, l, leaf, pm, hdr) && 0 < remain <= N_INDIRECT
    requires pm >= Base(l) || dev.free == {}
    ensures LeafLoop(dev0, t0, p0, dev', h1, ts, ps, tp', l, leaf', pm', hdr) && tp'.mid == tp.mid && pm <= pm'
    ensures pm' <= Max(pm, Base(l) + remain) && (ok ==> pm' >= Base(l) + remain)
    ensures !ok ==> dev'.free == {}
  {
    leaf', dev', tp', pm' := leaf, dev, tp, pm;
    var i := 0;
    while i < remain
      invariant i <= remain
      invariant LeafLoop(dev0, t0, p0, dev', h1, ts, ps, tp', l, leaf', pm', hdr) && tp'.mid == tp.mid && pm <= pm'
      invariant pm' >= Base(l) + i || (i == 0 && dev'.free == {})
      invariant pm' <= Max(pm, Base(l) + i)
    {
      var okE;
      okE, leaf', dev', tp', pm' := LeafEntry(dev', leaf', i, dev0, t0, p0, h1, ts, ps, tp', l, pm', hdr);
      if !okE {
        return false, leaf', dev', tp', pm';
      }
      i := i + 1;
    }
    ok := true;
  }

  /** Writing a sector that was free when the growth began and that t
      does not name keeps the growth relation. */
  lemma FreshWriteGrown(dev0: Dev, t0: Tree, p0: nat, dev: Dev, t: Tree, p: nat, hdr: Sector, s: Sector, b: seq<byte>)
    requires Grown(dev0, t0, p0, dev, t, p, hdr) && s in dev0.free && !Meta(t, s) && |b| == SECTOR_SIZE
    requires forall k :: 0 <= k < N_LEVEL2 ==> t.data[k] != s
    ensures Grown(dev0, t0, p0, Dev(WriteSector(dev.disk, s, b), dev.free), t, p, hdr)
  {
  }

  /** Allocating the absent second level index sector l with the free
      sector x is a growth step. */
  lemma AllocMid(dev: Dev, t: Tree, p: nat, hdr: Sector, l: nat, x: Sector)
    requires DevOk(dev) && Filled(t, p) && Owned(t, hdr, dev.free) && hdr !in dev.free
    requires l < N_INDIRECT && t.mid[l] == 0 && x in dev.free
    ensures Grown(dev, t, p, Dev(WriteSector(dev.disk, x, Zeros(SECTOR_SIZE)), dev.free - {x}),
                  t.(mid := t.mid[l := x]), p, hdr)
  {
    FlatMid(t, l, x);
    assert Flat(t)[MID_AT + l] == 0;
    TakeFresh(Flat(t), MID_AT + l, x, hdr, dev.free);
    NotMeta(t, hdr, dev.free, x);
  }

  /** The allocated second level index sectors are a prefix. */
  lemma MidPrefix(d: Disk, h: InodeDisk, t: Tree, p: nat, l: nat, j: nat)
    requires Stored(d, h, t) && Filled(t, p) && MidFilled(t) && l < j < N_INDIRECT && t.mid[l] == 0
    ensures t.mid[j] == 0
  {
    assert Leaf(t, l)[0] == t.data[Base(l)] == 0;
    assert t.data[Base(j)] == 0;
  }

  /** The state of the doubly indirect loop between two leaves: the disk
      stores ts; tp is the tree with the second level entries held in
      memory, and all its leaves are on disk. */
  ghost predicate DoublyLoop(dev0: Dev, t0: Tree, p0: nat, dev: Dev, h1: InodeDisk, ts: Tree, ps: nat,
                             tp: Tree, pm: nat, hdr: Sector)
  {
    && Extends(dev0, t0, p0, dev, h1, ts, ps, hdr) && ts.dbl != 0
    && Grown(dev0, t0, p0, dev, tp, pm, hdr) && MidFilled(tp)
    && Lower(ts, tp) && LeavesHeld(dev.disk, tp, N_INDIRECT)
  }

  /** Which tree the disk stores before leaf l: tp itself while every
      second level sector visited already existed; otherwise ts, and
      neither names a second level sector from l on. */
  ghost predicate GrowthPhase(ts: Tree, ps: nat, tp: Tree, pm: nat, l: nat, same: bool)
    requires Shaped(ts) && Shaped(tp)
  {
    && (same ==> ts == tp && ps == pm)
    && (!same ==> forall j :: l <= j < N_INDIRECT ==> tp.mid[j] == 0 && ts.mid[j] == 0)
  }

  /** The second level index sector l, allocated if absent, and its
      entries read into memory. */
  method OpenLeaf(dev: Dev, mids: seq<Sector>, l: nat, ghost dev0: Dev, ghost t0: Tree, ghost p0: nat,
                  ghost h1: InodeDisk, ghost ts: Tree, ghost ps: nat, ghost tp: Tree, ghost pm: nat,
                  ghost hdr: Sector)
    returns (ok: bool, m: Sector, dev1: Dev, leaf: seq<Sector>, ghost tq: Tree)
    requires DoublyLoop(dev0, t0, p0, dev, h1, ts, ps, tp, pm, hdr) && mids == tp.mid && l < N_INDIRECT
    ensures ok ==> LeafLoop(dev0, t0, p0, dev1, h1, ts, ps, tq, l, leaf, pm, hdr)
    ensures ok ==> tq == tp.(mid := tp.mid[l := m]) && (tp.mid[l] != 0 ==> m == tp.mid[l])
    ensures ok && tp.mid[l] == 0 ==>
      m in dev.free && m in dev0.free && !Meta(ts, m) && forall k :: 0 <= k < N_LEVEL2 ==> ts.data[k] != m
    ensures ok && tp.mid[l] != 0 ==> dev1 == dev
    ensures !ok ==> dev.free == {}
  {
    ok, m, dev1 := CreateSector(dev, mids[l]);
    if !ok {
      return false, 0, dev, [], tp;
    }
    tq := tp.(mid := tp.mid[l := m]);
    if mids[l] == 0 {
      OpenNewLeaf(dev0, t0, p0, dev, h1, ts, ps, tp, pm, hdr, l, m);
    } else {
      assert tq == tp;
    }
    leaf := IndexOf(ReadSector(dev1.disk, m));
    assert Holds(dev1.disk, tq.mid[l], Leaf(tq, l));
  }

  /** Allocating the absent second level index sector l with the free
      sector m: its leaf is on disk as zeros. */
  lemma OpenNewLeaf(dev0: Dev, t0: Tree, p0: nat, dev: Dev, h1: InodeDisk, ts: Tree, ps: nat,
                    tp: Tree, pm: nat, hdr: Sector, l: nat, m: Sector)
    requires DoublyLoop(dev0, t0, p0, dev, h1, ts, ps, tp, pm, hdr) && l < N_INDIRECT && tp.mid[l] == 0
    requires m in dev.free
    ensures var dev1 := Dev(WriteSector(dev.disk, m, Zeros(SECTOR_SIZE)), dev.free - {m});
      var tq := tp.(mid := tp.mid[l := m]);
      && LeafLoop(dev0, t0, p0, dev1, h1, ts, ps, tq, l, Leaf(tq, l), pm, hdr)
      && Holds(dev1.disk, m, Leaf(tq, l))
      && m in dev0.free && !Meta(ts, m) && forall k :: 0 <= k < N_LEVEL2 ==> ts.data[k] != m
  {
    var dev1 := Dev(WriteSector(dev.disk, m, Zeros(SECTOR_SIZE)), dev.free - {m});
    var tq := tp.(mid := tp.mid[l := m]);
    assert Holds(dev.disk, tp.mid[l], Leaf(tp, l));
    AllocMid(dev, tp, pm, hdr, l, m);
    GrownTrans(dev0, t0, p0, dev, tp, pm, dev1, tq, pm, hdr);
    ExtendsZeroFill(dev0, t0, p0, dev, h1, ts, ps, hdr, m);
    NotMeta(tp, hdr, dev.free, m);
    NotMeta(ts, hdr, dev.free, m);
    forall k | 0 <= k < N_LEVEL2
      ensures ts.data[k] != m
    {
      assert Flat(ts)[k] == ts.data[k];
    }
    LeavesKept(dev.disk, tp, tq, l, m, Zeros(SECTOR_SIZE));
    IndexOfZeros();
  }

  /** Writing back a leaf whose index sector already existed: the tree
      with it is now stored. */
  lemma CloseOldLeaf(dev0: Dev, t0: Tree, p0: nat, dev: Dev, h1: InodeDisk, ts: Tree, ps: nat,
                     tq: Tree, l: nat, leaf: seq<Sector>, pm: nat, hdr: Sector)
    requires DevOk(dev) && hdr !in dev.free && Stored(dev.disk, h1, ts) && Filled(ts, ps) && MidFilled(ts)
    requires Grown(dev0, t0, p0, dev, tq, pm, hdr) && Lower(ts, tq) && tq.mid == ts.mid && ps <= pm
    requires l < N_INDIRECT && tq.mid[l] != 0 && Leaf(tq, l) == leaf && pm >= Base(l) + 1
    requires LeavesHeld(dev.disk, tq, l)
    ensures Extends(dev0, t0, p0, Dev(WriteSector(dev.disk, tq.mid[l], IndexBytes(leaf)), dev.free), h1, tq, pm, hdr)
  {
    var m := tq.mid[l];
    var dev2 := Dev(WriteSector(dev.disk, m, IndexBytes(leaf)), dev.free);
    WrittenLeaf(dev, tq, l, leaf, hdr);
    assert Flat(tq)[MID_AT + l] == m;
    MetaWriteGrown(dev, tq, pm, hdr, m, IndexBytes(leaf));
    GrownTrans(dev0, t0, p0, dev, tq, pm, dev2, tq, pm, hdr);
    MidFilledAfter(tq, pm, l);
    OldLeafStored(dev.disk, h1, ts, tq, l, leaf);
  }

  /** A leaf written back after its first entry was allocated keeps the
      second level index sectors filled. */
  lemma MidFilledAfter(t: Tree, p: nat, l: nat)
    requires Filled(t, p) && l < N_INDIRECT && p >= Base(l) + 1
    requires forall j :: l < j < N_INDIRECT && t.mid[j] != 0 ==> Base(j) < p
    ensures MidFilled(t)
  {
  }

  /** Writing leaf l back keeps every leaf of tq held. */
  lemma WrittenLeaf(dev: Dev, tq: Tree, l: nat, leaf: seq<Sector>, hdr: Sector)
    requires DevOk(dev) && Shaped(tq) && l < N_INDIRECT && Leaf(tq, l) == leaf && tq.mid[l] != 0
    requires Owned(tq, hdr, dev.free) && LeavesHeld(dev.disk, tq, l)
    ensures forall i :: 0 <= i < N_INDIRECT ==> leaf[i] < WORD_LIMIT
    ensures LeavesHeld(WriteSector(dev.disk, tq.mid[l], IndexBytes(leaf)), tq, N_INDIRECT)
  {
    var m := tq.mid[l];
    forall i | 0 <= i < N_INDIRECT
      ensures leaf[i] < WORD_LIMIT
    {
      assert Flat(tq)[Base(l) + i] == leaf[i];
    }
    IndexRoundTrip(leaf);
    var f := Flat(tq);
    forall j | 0 <= j < N_INDIRECT && j != l
      ensures tq.mid[j] != m
    {
      assert f[MID_AT + j] == tq.mid[j] && f[MID_AT + l] == m;
    }
    LeavesKept(dev.disk, tq, tq, l, m, IndexBytes(leaf));
  }

  /** The stored tree with leaf l replaced by the one written back. */
  lemma OldLeafStored(d: Disk, h1: InodeDisk, ts: Tree, tq: Tree, l: nat, leaf: seq<Sector>)
    requires Stored(d, h1, ts) && Lower(ts, tq) && tq.mid == ts.mid && l < N_INDIRECT && tq.mid[l] != 0
    requires Distinct(Flat(tq)) && Leaf(tq, l) == leaf
    requires LeavesHeld(WriteSector(d, tq.mid[l], IndexBytes(leaf)), tq, N_INDIRECT)
    ensures Stored(WriteSector(d, tq.mid[l], IndexBytes(leaf)), h1, tq)
  {
    var m := tq.mid[l];
    var f := Flat(tq);
    assert f[IND_AT] == tq.ind && f[DBL_AT] == tq.dbl && f[MID_AT + l] == m;
    assert tq.data[..N_LEVEL0] == tq.data[..N_LEVEL1][..N_LEVEL0];
    assert ts.data[..N_LEVEL0] == ts.data[..N_LEVEL1][..N_LEVEL0];
    assert tq.data[N_LEVEL0..N_LEVEL1] == tq.data[..N_LEVEL1][N_LEVEL0..];
    assert ts.data[N_LEVEL0..N_LEVEL1] == ts.data[..N_LEVEL1][N_LEVEL0..];
  }

  /** While the disk stores the tree held in memory, the doubly indirect
      loop state holds of it. */
  lemma DoublySame(dev0: Dev, t0: Tree, p0: nat, dev: Dev, h1: InodeDisk, t: Tree, p: nat, hdr: Sector)
    requires Extends(dev0, t0, p0, dev, h1, t, p, hdr) && t.dbl != 0
    ensures DoublyLoop(dev0, t0, p0, dev, h1, t, p, t, p, hdr)
  {
  }

  /** Writing back a leaf whose index sector was allocated in this turn:
      the disk still stores ts, and the tree held in memory has all its
      leaves on disk. */
  lemma CloseNewLeaf(dev0: Dev, t0: Tree, p0: nat, dev: Dev, h1: InodeDisk, ts: Tree, ps: nat,
                     tq: Tree, l: nat, leaf: seq<Sector>, pm: nat, hdr: Sector)
    requires Extends(dev0, t0, p0, dev, h1, ts, ps, hdr) && Grown(dev0, t0, p0, dev, tq, pm, hdr)
    requires l < N_INDIRECT && tq.mid[l] != 0 && Leaf(tq, l) == leaf && pm >= Base(l) + 1
    requires tq.mid[l] in dev0.free && !Meta(ts, tq.mid[l]) && forall k :: 0 <= k < N_LEVEL2 ==> ts.data[k] != tq.mid[l]
    requires LeavesHeld(dev.disk, tq, l) && forall j :: l < j < N_INDIRECT ==> tq.mid[j] == 0
    ensures var dev2 := Dev(WriteSector(dev.disk, tq.mid[l], IndexBytes(leaf)), dev.free);
      && Extends(dev0, t0, p0, dev2, h1, ts, ps, hdr)
      && Grown(dev0, t0, p0, dev2, tq, pm, hdr) && MidFilled(tq) && LeavesHeld(dev2.disk, tq, N_INDIRECT)
  {
    var m := tq.mid[l];
    var b := IndexBytes(leaf);
    var dev2 := Dev(WriteSector(dev.disk, m, b), dev.free);
    WriteKeepsStored(dev.disk, h1, ts, m, b);
    FreshWriteGrown(dev0, t0, p0, dev, ts, ps, hdr, m, b);
    WrittenLeaf(dev, tq, l, leaf, hdr);
    assert Flat(tq)[MID_AT + l] == m;
    MetaWriteGrown(dev, tq, pm, hdr, m, b);
    GrownTrans(dev0, t0, p0, dev, tq, pm, dev2, tq, pm, hdr);
    MidFilledAfter(tq, pm, l);
  }

  /** Writing back leaf l, held in memory with its first entries
      allocated, to its second level index sector m. */
  method CloseLeaf(dev: Dev, mids: seq<Sector>, l: nat, m: Sector, leaf: seq<Sector>, ghost dev0: Dev,
                   ghost t0: Tree, ghost p0: nat, ghost h1: InodeDisk, ghost ts: Tree, ghost ps: nat,
                   ghost tp: Tree, ghost pm: nat, ghost tq: Tree, ghost pq: nat, ghost hdr: Sector,
                   ghost same: bool)
    returns (mids': seq<Sector>, dev': Dev, ghost ts': Tree, ghost ps': nat, ghost tp': Tree,
             ghost pm': nat, ghost same': bool)
    requires LeafLoop(dev0, t0, p0, dev, h1, ts, ps, tq, l, leaf, pq, hdr) && pq >= Base(l) + 1 && ps <= pm <= pq
    requires Shaped(tp) && mids == tp.mid && GrowthPhase(ts, ps, tp, pm, l, same)
    requires m == tq.mid[l] && tq.mid == tp.mid[l := m] && (tp.mid[l] != 0 ==> m == tp.mid[l])
    requires tp.mid[l] == 0 ==> m in dev0.free && !Meta(ts, m) && forall k :: 0 <= k < N_LEVEL2 ==> ts.data[k] != m
    ensures DoublyLoop(dev0, t0, p0, dev', h1, ts', ps', tp', pm', hdr) && mids' == tp'.mid
    ensures GrowthPhase(ts', ps', tp', pm', l + 1, same') && pm' == pq && ps' <= pm'
  {
    dev' := Dev(WriteSector(dev.disk, m, IndexBytes(leaf)), dev.free);
    mids' := mids[l := m];
    if mids[l] != 0 {
      assert tq.mid == ts.mid;
      CloseOldLeaf(dev0, t0, p0, dev, h1, ts, ps, tq, l, leaf, pq, hdr);
      DoublySame(dev0, t0, p0, dev', h1, tq, pq, hdr);
      return mids', dev', tq, pq, tq, pq, same;
    }
    forall j | l < j < N_INDIRECT
      ensures tp.mid[j] == 0 && ts.mid[j] == 0
    {
      if same {
        MidPrefix(dev.disk, h1, ts, ps, l, j);
      }
    }
    CloseNewLeaf(dev0, t0, p0, dev, h1, ts, ps, tq, l, leaf, pq, hdr);
    return mids', dev', ts, ps, tq, pq, false;
  }

  /** One turn of the doubly indirect loop: second level index sector l,
      allocated if absent, gets its first remain data sectors and is
      written back. */
  method DoublyEntry(dev: Dev, mids: seq<Sector>, l: nat, remain: nat, ghost dev0: Dev, ghost t0: Tree,
                     ghost p0: nat, ghost h1: InodeDisk, ghost ts: Tree, ghost ps: nat, ghost tp: Tree,
                     ghost pm: nat, ghost hdr: Sector, ghost same: bool)
    returns (ok: bool, mids': seq<Sector>, dev': Dev, ghost ts': Tree, ghost ps': nat, ghost tp': Tree,
             ghost pm': nat, ghost same': bool)
    requires DoublyLoop(dev0, t0, p0, dev, h1, ts, ps, tp, pm, hdr) && mids == tp.mid && l < N_INDIRECT
    requires GrowthPhase(ts, ps, tp, pm, l, same) && 0 < remain <= N_INDIRECT && ps <= pm
    requires pm >= Base(l) || dev.free == {}
    ensures Extends(dev0, t0, p0, dev', h1, ts', ps', hdr)
    ensures ps' <= pm' <= Max(pm, Base(l) + remain)
    ensures ok ==> DoublyLoop(dev0, t0, p0, dev', h1, ts', ps', tp', pm', hdr) && mids' == tp'.mid
    ensures ok ==> GrowthPhase(ts', ps', tp', pm', l + 1, same') && pm' >= Base(l) + remain
    ensures !ok ==> dev'.free == {}
  {
    var okL, m, dev1, leaf, tq := OpenLeaf(dev, mids, l, dev0, t0, p0, h1, ts, ps, tp, pm, hdr);
    if !okL {
      return false, mids, dev, ts, ps, tp, pm, same;
    }
    var okF, leaf', dev2, tq', pm2 := FillLeaf(dev1, leaf, remain, dev0, t0, p0, h1, ts, ps, tq, l, pm, hdr);
    if !okF {
      return false, mids, dev2, ts, ps, tp, pm, same;
    }
    mids', dev', ts', ps', tp', pm', same' :=
      CloseLeaf(dev2, mids, l, m, leaf', dev0, t0, p0, h1, ts, ps, tp, pm, tq', pm2, hdr, same);
    ok := true;
  }

  /** Allocating an absent doubly indirect sector with the free sector x:
      its zeros name no second level sector, as the tree already says. */
  lemma AllocDoubly(dev: Dev, h: InodeDisk, t: Tree, p: nat, hdr: Sector, x: Sector)
    requires Ready(dev, h, t, p, hdr) && t.dbl == 0 && x in dev.free
    ensures Extends(dev, t, p, Dev(WriteSector(dev.disk, x, Zeros(SECTOR_SIZE)), dev.free - {x}),
                    h.(blocks := h.blocks[DOUBLY_SLOT := x]), t.(dbl := x), p, hdr)
  {
    var d2 := WriteSector(dev.disk, x, Zeros(SECTOR_SIZE));
    var t2 := t.(dbl := x);
    var h2 := h.(blocks := h.blocks[DOUBLY_SLOT := x]);
    ZeroFillKeeps(dev, h, t, hdr, x);
    FlatDbl(t, x);
    TakeFresh(Flat(t), DBL_AT, x, hdr, dev.free);
    IndexOfZeros();
    assert IndexOf(ReadSector(d2, x)) == t.mid;
    assert h2.blocks[..N_LEVEL0] == h.blocks[..N_LEVEL0];
    assert Stored(d2, h2, t2);
  }

  /** The doubly indirect sector, allocated if absent, and its entries
      read into memory. */
  method OpenDoubly(dev: Dev, h: InodeDisk, ghost hdr: Sector, ghost t: Tree, ghost p: nat)
    returns (ok: bool, h1: InodeDisk, dev1: Dev, mids: seq<Sector>, ghost t1: Tree)
    requires Ready(dev, h, t, p, hdr)
    ensures ok ==> DoublyLoop(dev, t, p, dev1, h1, t1, p, t1, p, hdr) && mids == t1.mid
    ensures ok ==> h1.length == h.length && h1.isDir == h.isDir && h1.magic == h.magic
    ensures ok ==> h1.blocks[DOUBLY_SLOT] == t1.dbl
    ensures !ok ==> dev.free == {}
  {
    var dbl;
    ok, dbl, dev1 := CreateSector(dev, h.blocks[DOUBLY_SLOT]);
    if !ok {
      return false, h, dev, [], t;
    }
    h1 := h.(blocks := h.blocks[DOUBLY_SLOT := dbl]);
    t1 := t.(dbl := dbl);
    if h.blocks[DOUBLY_SLOT] == 0 {
      AllocDoubly(dev, h, t, p, hdr, dbl);
    } else {
      assert h1 == h && t1 == t;
      ExtendsRefl(dev, h, t, p, hdr);
    }
    DoublySame(dev, t, p, dev1, h1, t1, p, hdr);
    mids := IndexOf(ReadSector(dev1.disk, dbl));
  }

  /** The doubly indirect sector of a distinct tree is none of its other
      index sectors. */
  lemma DblApart(t: Tree)
    requires Shaped(t) && Distinct(Flat(t)) && t.dbl != 0
    ensures t.dbl != t.ind && forall j :: 0 <= j < N_INDIRECT ==> t.mid[j] != t.dbl
  {
    var f := Flat(t);
    assert f[IND_AT] == t.ind && f[DBL_AT] == t.dbl;
    assert forall j :: 0 <= j < N_INDIRECT ==> f[MID_AT + j] == t.mid[j];
  }

  /** Writing the second level entries held in memory to the doubly
      indirect sector stores the tree held in memory. */
  lemma DoublyStored(d: Disk, h1: InodeDisk, ts: Tree, tp: Tree)
    requires Stored(d, h1, ts) && Lower(ts, tp) && LeavesHeld(d, tp, N_INDIRECT)
    requires Distinct(Flat(tp)) && tp.dbl != 0
    requires forall j :: 0 <= j < N_INDIRECT ==> tp.mid[j] < WORD_LIMIT
    ensures Stored(WriteSector(d, tp.dbl, IndexBytes(tp.mid)), h1, tp)
  {
    var b := IndexBytes(tp.mid);
    IndexRoundTrip(tp.mid);
    DblApart(tp);
    LeavesKept(d, tp, tp, N_INDIRECT, tp.dbl, b);
    assert tp.data[..N_LEVEL0] == tp.data[..N_LEVEL1][..N_LEVEL0];
    assert ts.data[..N_LEVEL0] == ts.data[..N_LEVEL1][..N_LEVEL0];
    assert tp.data[N_LEVEL0..N_LEVEL1] == tp.data[..N_LEVEL1][N_LEVEL0..];
    assert ts.data[N_LEVEL0..N_LEVEL1] == ts.data[..N_LEVEL1][N_LEVEL0..];
  }

  /** Writing the doubly indirect sector back ends the loop with the tree
      held in memory stored. */
  lemma DoublyWrittenBack(dev0: Dev, t0: Tree, p0: nat, dev: Dev, h1: InodeDisk, ts: Tree, ps: nat,
                          tp: Tree, pm: nat, hdr: Sector)
    requires DoublyLoop(dev0, t0, p0, dev, h1, ts, ps, tp, pm, hdr)
    ensures Extends(dev0, t0, p0, Dev(WriteSector(dev.disk, tp.dbl, IndexBytes(tp.mid)), dev.free), h1, tp, pm, hdr)
  {
    var f := Flat(tp);
    forall j | 0 <= j < N_INDIRECT
      ensures tp.mid[j] < WORD_LIMIT
    {
      assert f[MID_AT + j] == tp.mid[j];
    }
    DoublyStored(dev.disk, h1, ts, tp);
    assert f[DBL_AT] == tp.dbl;
    var dev2 := Dev(WriteSector(dev.disk, tp.dbl, IndexBytes(tp.mid)), dev.free);
    MetaWriteGrown(dev, tp, pm, hdr, tp.dbl, IndexBytes(tp.mid));
    GrownTrans(dev0, t0, p0, dev, tp, pm, dev2, tp, pm, hdr);
  }

  /** The loop of the doubly indirect part: the leaves through which
      data sectors N_LEVEL1 .. n-1 are reached. */
  method DoublyLeaves(dev: Dev, mids: seq<Sector>, n: nat, ghost dev0: Dev, ghost t0: Tree, ghost p0: nat,
                      ghost h1: InodeDisk, ghost t1: Tree, ghost hdr: Sector)
    returns (ok: bool, mids': seq<Sector>, dev': Dev, ghost ts: Tree, ghost ps: nat, ghost tp: Tree, ghost pm: nat)
    requires N_LEVEL1 < n <= N_LEVEL2 && DoublyLoop(dev0, t0, p0, dev, h1, t1, p0, t1, p0, hdr) && mids == t1.mid
    requires p0 >= N_LEVEL1 || dev.free == {}
    ensures Extends(dev0, t0, p0, dev', h1, ts, ps, hdr)
    ensures ps <= pm <= Max(p0, n)
    ensures ok ==> DoublyLoop(dev0, t0, p0, dev', h1, ts, ps, tp, pm, hdr) && mids' == tp.mid && pm >= n
    ensures !ok ==> dev'.free == {}
  {
    mids', dev' := mids, dev;
    ts, ps, tp, pm := t1, p0, t1, p0;
    ghost var same := true;
    var sectors := n - N_LEVEL1;
    var l := 0;
    while l < N_INDIRECT && sectors > 0
      invariant l <= N_INDIRECT && sectors >= 0
      invariant DoublyLoop(dev0, t0, p0, dev', h1, ts, ps, tp, pm, hdr) && mids' == tp.mid
      invariant GrowthPhase(ts, ps, tp, pm, l, same)
      invariant sectors > 0 ==> sectors == n - Base(l) && (pm >= Base(l) || (l == 0 && dev'.free == {}))
      invariant sectors == 0 ==> pm >= n
      invariant ps <= pm <= Max(p0, n - sectors)
    {
      var remain := if sectors < N_INDIRECT then sectors else N_INDIRECT;
      var okE;
      okE, mids', dev', ts, ps, tp, pm, same :=
        DoublyEntry(dev', mids', l, remain, dev0, t0, p0, h1, ts, ps, tp, pm, hdr, same);
      if !okE {
        return false, mids', dev', ts, ps, tp, pm;
      }
      sectors := sectors - remain;
      l := l + 1;
    }
    assert Base(N_INDIRECT) == N_LEVEL2;
    ok := true;
  }

  /** The doubly indirect part of do_inode_create: data sectors
      N_LEVEL1 .. n-1 through the doubly indirect sector. */
  method CreateDoubly(dev: Dev, h: InodeDisk, n: nat, ghost hdr: Sector, ghost t: Tree, ghost p: nat)
    returns (ok: bool, h': InodeDisk, dev': Dev, ghost t': Tree, ghost p': nat)
    requires N_LEVEL1 < n <= N_LEVEL2 && Ready(dev, h, t, p, hdr)
    requires p >= N_LEVEL1 || dev.free == {}
    ensures Extends(dev, t, p, dev', h', t', p', hdr)
    ensures h'.length == h.length && h'.isDir == h.isDir && h'.magic == h.magic
    ensures p' <= Max(p, n) && (ok ==> p' >= n)
    ensures !ok ==> dev'.free == {}
  {
    var okS, h1, dev1, mids, t1 := OpenDoubly(dev, h, hdr, t, p);
    if !okS {
      ExtendsRefl(dev, h, t, p, hdr);
      return false, h, dev, t, p;
    }
    h' := h1;
    var okL;
    ghost var ts, ps, tp, pm;
    okL, mids, dev', ts, ps, tp, pm := DoublyLeaves(dev1, mids, n, dev, t, p, h1, t1, hdr);
    if !okL {
      return false, h', dev', ts, ps;
    }
    DoublyWrittenBack(dev, t, p, dev', h', ts, ps, tp, pm, hdr);
    dev' := Dev(WriteSector(dev'.disk, h'.blocks[DOUBLY_SLOT], IndexBytes(mids)), dev'.free);
    t', p' := tp, pm;
    ok := true;
  }

  // ---------------------------------------------------------------------
  // do_inode_create

  lemma ExtendsTrans(dev0: Dev, t0: Tree, p0: nat, dev1: Dev, h1: InodeDisk, t1: Tree, p1: nat,
                     dev2: Dev, h2: InodeDisk, t2: Tree, p2: nat, hdr: Sector)
    requires Extends(dev0, t0, p0, dev1, h1, t1, p1, hdr) && Extends(dev1, t1, p1, dev2, h2, t2, p2, hdr)
    ensures Extends(dev0, t0, p0, dev2, h2, t2, p2, hdr)
  {
    GrownTrans(dev0, t0, p0, dev1, t1, p1, dev2, t2, p2, hdr);
  }

  /** do_inode_create: the header h, stored with the tree t of p data
      sectors, is grown to n data sectors. Only pointer slots that are 0
      get sectors, so the data there is stays; the level below is
      always filled first and its result ignored. On failure the free
      map ran out and the sectors taken so far stay taken. */
  method DoCreate(dev: Dev, h: InodeDisk, n: nat, ghost hdr: Sector, ghost t: Tree, ghost p: nat)
    returns (ok: bool, h': InodeDisk, dev': Dev, ghost t': Tree, ghost p': nat)
    requires Ready(dev, h, t, p, hdr)
    ensures Extends(dev, t, p, dev', h', t', p', hdr)
    ensures h'.length == h.length && h'.isDir == h.isDir && h'.magic == h.magic
    ensures n > N_LEVEL2 ==> !ok && h' == h && dev' == dev && t' == t
    ensures p' <= Max(p, n)
    ensures ok ==> p' == Max(p, n)
    ensures !ok && n <= N_LEVEL2 ==> dev'.free == {}
    ensures n <= N_LEVEL0 ==> t'.ind == t.ind
    ensures n <= N_LEVEL1 ==> t'.dbl == t.dbl
    decreases n
  {
    if n > N_LEVEL2 {
      ExtendsRefl(dev, h, t, p, hdr);
      return false, h, dev, t, p;
    }
    if n <= N_LEVEL0 {
      ok, h', dev', t', p' := CreateDirect(dev, h, n, hdr, t, p);
      return;
    }
    var below := if n > N_LEVEL1 then N_LEVEL1 else N_LEVEL0;
    var okBelow, h1, dev1, t1, p1 := DoCreate(dev, h, below, hdr, t, p);
    if n > N_LEVEL1 {
      ok, h', dev', t', p' := CreateDoubly(dev1, h1, n, hdr, t1, p1);
    } else {
      ok, h', dev', t', p' := CreateIndirect(dev1, h1, n, hdr, t1, p1);
    }
    ExtendsTrans(dev, t, p, dev1, h1, t1, p1, dev', h', t', p', hdr);
  }
}
