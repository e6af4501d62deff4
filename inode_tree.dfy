/** The pointers of one inode as a value. data[k] is the sector holding
    file sector number k (0 when none is allocated), ind and dbl are the
    indirect and doubly indirect index sectors and mid the entries of the
    doubly indirect one. Stored says that a header and the disk encode the
    tree. Owned says that its sectors are distinct, not free and apart
    from the header sector; Filled that the allocated data sectors are a
    prefix. */
module InodeTree {
  import opened Bytes
  import opened Block
  import opened InodeLayout

  datatype Tree = Tree(data: seq<Sector>, ind: Sector, dbl: Sector, mid: seq<Sector>)

  ghost predicate Shaped(t: Tree)
  {
    |t.data| == N_LEVEL2 && |t.mid| == N_INDIRECT
  }

  /** The data sectors named by the second level index sector j. */
  function Leaf(t: Tree, j: nat): (ws: seq<Sector>)
    requires Shaped(t) && j < N_INDIRECT
    ensures |ws| == N_INDIRECT
  {
    t.data[N_LEVEL1 + N_INDIRECT * j .. N_LEVEL1 + N_INDIRECT * j + N_INDIRECT]
  }

  /** The index sector s holds ws, or s is 0 and ws names nothing. */
  ghost predicate Holds(d: Disk, s: Sector, ws: seq<Sector>)
    requires Sectors(d) && |ws| == N_INDIRECT
  {
    if s == 0 then forall i :: 0 <= i < N_INDIRECT ==> ws[i] == 0
    else IndexOf(ReadSector(d, s)) == ws
  }

  /** The header h and the disk d encode the tree t. */
  ghost predicate Stored(d: Disk, h: InodeDisk, t: Tree)
  {
    && Sectors(d) && Shaped(t) && |h.blocks| == N_BLOCKS
    && h.blocks[..N_LEVEL0] == t.data[..N_LEVEL0]
    && h.blocks[INDIRECT_SLOT] == t.ind && h.blocks[DOUBLY_SLOT] == t.dbl
    && Holds(d, t.ind, t.data[N_LEVEL0..N_LEVEL1])
    && Holds(d, t.dbl, t.mid)
    && forall j :: 0 <= j < N_INDIRECT ==> Holds(d, t.mid[j], Leaf(t, j))
  }

  /** Every sector the tree names, data sectors first. */
  function Flat(t: Tree): seq<Sector>
  {
    t.data + [t.ind, t.dbl] + t.mid
  }

  /** Positions of the index sectors in Flat. */
  const IND_AT: nat := N_LEVEL2
  const DBL_AT: nat := N_LEVEL2 + 1
  const MID_AT: nat := N_LEVEL2 + 2

  /** No sector named twice. */
  ghost predicate Distinct(s: seq<Sector>)
  {
    forall i, j :: 0 <= i < |s| && 0 <= j < |s| && i != j && s[i] != 0 ==> s[i] != s[j]
  }

  /** Every sector named is in use by this inode alone: not free, not the
      header and a valid sector number. */
  ghost predicate Apart(s: seq<Sector>, hdr: Sector, free: set<Sector>)
  {
    forall i :: 0 <= i < |s| && s[i] != 0 ==> s[i] !in free && s[i] != hdr && s[i] < NO_SECTOR
  }

  ghost predicate Owned(t: Tree, hdr: Sector, free: set<Sector>)
  {
    Distinct(Flat(t)) && Apart(Flat(t), hdr, free)
  }

  /** Exactly the data sectors below p are allocated. */
  ghost predicate Filled(t: Tree, p: nat)
  {
    && Shaped(t) && p <= N_LEVEL2
    && forall k :: 0 <= k < N_LEVEL2 ==> (t.data[k] != 0 <==> k < p)
  }

  /** s is an index sector of t. */
  ghost predicate Meta(t: Tree, s: Sector)
  {
    s != 0 && (s == t.ind || s == t.dbl || s in t.mid)
  }

  // ---------------------------------------------------------------------
  // Reading through the header

  /** index_to_sector follows the tree to the data sector of k. */
  lemma IndexToSectorTree(d: Disk, h: InodeDisk, t: Tree, k: nat)
    requires Stored(d, h, t) && k < N_LEVEL2 && t.data[k] != 0
    ensures IndexToSector(d, h, k) == t.data[k]
  {
    if k < N_LEVEL0 {
      assert h.blocks[..N_LEVEL0][k] == t.data[..N_LEVEL0][k];
    } else if k < N_LEVEL1 {
      assert t.data[N_LEVEL0..N_LEVEL1][k - N_LEVEL0] == t.data[k];
    } else {
      DoublySplit(k);
      var j, i := (k - N_LEVEL1) / N_INDIRECT, (k - N_LEVEL1) % N_INDIRECT;
      assert Leaf(t, j)[i] == t.data[k];
      assert t.mid[j] != 0;
    }
  }

  // ---------------------------------------------------------------------
  // Changing one sector

  /** Writing a sector that is no index sector of t keeps t stored. */
  lemma WriteKeepsStored(d: Disk, h: InodeDisk, t: Tree, s: Sector, b: seq<byte>)
    requires Stored(d, h, t) && |b| == SECTOR_SIZE && !Meta(t, s)
    ensures Stored(WriteSector(d, s, b), h, t)
  {
    var d' := WriteSector(d, s, b);
    forall j | 0 <= j < N_INDIRECT
      ensures Holds(d', t.mid[j], Leaf(t, j))
    {
      assert t.mid[j] in t.mid;
    }
  }

  /** A sector that is free, or a data sector of t, is no index sector of
      t. */
  lemma NotMeta(t: Tree, hdr: Sector, free: set<Sector>, s: Sector)
    requires Shaped(t) && Owned(t, hdr, free)
    requires s in free || exists k :: 0 <= k < N_LEVEL2 && t.data[k] == s && s != 0
    ensures !Meta(t, s)
  {
    var f := Flat(t);
    assert f[IND_AT] == t.ind && f[DBL_AT] == t.dbl;
    assert forall j :: 0 <= j < N_INDIRECT ==> f[MID_AT + j] == t.mid[j];
    if s !in free {
      var k :| 0 <= k < N_LEVEL2 && t.data[k] == s && s != 0;
      assert f[k] == s;
    }
  }

  /** Naming a free sector at an unused position keeps the tree owned,
      once that sector is taken out of the free set. */
  lemma {:induction false} TakeFresh(f: seq<Sector>, i: nat, x: Sector, hdr: Sector, free: set<Sector>)
    requires Distinct(f) && Apart(f, hdr, free) && i < |f| && f[i] == 0
    requires x in free && x != hdr && x < NO_SECTOR
    ensures Distinct(f[i := x]) && Apart(f[i := x], hdr, free - {x})
  {
    var g := f[i := x];
    forall a, b | 0 <= a < |g| && 0 <= b < |g| && a != b && g[a] != 0
      ensures g[a] != g[b]
    {
      if a == i {
        assert g[b] == f[b];
      } else if b == i {
        assert g[a] == f[a];
      }
    }
  }

  lemma FlatData(t: Tree, k: nat, x: Sector)
    requires Shaped(t) && k < N_LEVEL2
    ensures Flat(t.(data := t.data[k := x])) == Flat(t)[k := x]
  {
  }

  lemma FlatInd(t: Tree, x: Sector)
    requires Shaped(t)
    ensures Flat(t.(ind := x)) == Flat(t)[IND_AT := x]
  {
  }

  lemma FlatDbl(t: Tree, x: Sector)
    requires Shaped(t)
    ensures Flat(t.(dbl := x)) == Flat(t)[DBL_AT := x]
  {
  }

  lemma FlatMid(t: Tree, j: nat, x: Sector)
    requires Shaped(t) && j < N_INDIRECT
    ensures Flat(t.(mid := t.mid[j := x])) == Flat(t)[MID_AT + j := x]
  {
  }
}
