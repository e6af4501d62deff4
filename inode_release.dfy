/** Releasing the sectors of an inode (filesys/inode.c, do_inode_close):
    the data sectors below the file's sector count, then the index
    sectors through which they are reached. The free map is a set of
    sectors; free_map_release puts one back. The index sectors are read
    from the disk, which the release does not change. */
module InodeRelease {
  import opened Block
  import opened InodeLayout
  import opened InodeTree
  import opened InodeGrow

  /** The sectors named at positions lo .. hi-1 of ws. */
  ghost function Range(ws: seq<Sector>, lo: nat, hi: nat): set<Sector>
    requires lo <= hi <= |ws|
  {
    set k | lo <= k < hi :: ws[k]
  }

  lemma RangeSplit(ws: seq<Sector>, lo: nat, mid: nat, hi: nat)
    requires lo <= mid <= hi <= |ws|
    ensures Range(ws, lo, hi) == Range(ws, lo, mid) + Range(ws, mid, hi)
  {
    forall x | x in Range(ws, lo, hi)
      ensures x in Range(ws, lo, mid) + Range(ws, mid, hi)
    {
      var k :| lo <= k < hi && ws[k] == x;
      if k < mid {
        assert x in Range(ws, lo, mid);
      } else {
        assert x in Range(ws, mid, hi);
      }
    }
  }

  lemma RangeOne(ws: seq<Sector>, lo: nat)
    requires lo < |ws|
    ensures Range(ws, lo, lo + 1) == {ws[lo]}
  {
    assert ws[lo] in Range(ws, lo, lo + 1);
  }

  /** A slice names what the sequence names at the same positions. */
  lemma RangeSlice(ws: seq<Sector>, a: nat, b: nat, r: nat)
    requires a <= b <= |ws| && r <= b - a
    ensures Range(ws[a..b], 0, r) == Range(ws, a, a + r)
  {
    var vs := ws[a..b];
    forall x | x in Range(ws, a, a + r)
      ensures x in Range(vs, 0, r)
    {
      var k :| a <= k < a + r && ws[k] == x;
      assert vs[k - a] == x;
    }
  }

  /** The second level index sectors whose first data sector lies below
      n: those do_inode_close visits. */
  ghost function MidsBelow(t: Tree, n: nat): set<Sector>
    requires Shaped(t)
  {
    set j | 0 <= j < N_INDIRECT && Base(j) < n :: t.mid[j]
  }

  /** What do_inode_close hands back for a file of n data sectors stored
      as t: the data sectors below n, the indirect sector beyond level
      0, the doubly indirect sector and the second level sectors in use
      beyond level 1. */
  ghost function Released(t: Tree, n: nat): set<Sector>
    requires Shaped(t) && n <= N_LEVEL2
  {
    Range(t.data, 0, n)
      + (if n > N_LEVEL0 then {t.ind} else {})
      + (if n > N_LEVEL1 then {t.dbl} + MidsBelow(t, n) else {})
  }

  /** Every sector the tree names. */
  ghost function Used(t: Tree): set<Sector>
  {
    set i | 0 <= i < |Flat(t)| && Flat(t)[i] != 0 :: Flat(t)[i]
  }

  // ---------------------------------------------------------------------
  // The release loops

  /** The loop freeing entries 0 .. n-1 of a pointer array: the direct
      pointers, or the entries of an index sector. */
  method ReleaseRun(ws: seq<Sector>, n: nat, free: set<Sector>) returns (free': set<Sector>)
    requires n <= |ws|
    ensures free' == free + Range(ws, 0, n)
  {
    free' := free;
    var i := 0;
    while i < n
      invariant i <= n && free' == free + Range(ws, 0, i)
    {
      RangeSplit(ws, 0, i, i + 1);
      RangeOne(ws, i);
      free' := free' + {ws[i]};
      i := i + 1;
    }
  }

  /** The state of the loop over the second level index sectors: the
      data sectors of levels 2 below Base(l) and the second level
      sectors before l are back. */
  ghost predicate ReleaseLoop(t: Tree, n: nat, free0: set<Sector>, free: set<Sector>, l: nat, sectors: nat)
    requires Shaped(t)
  {
    && N_LEVEL1 < n <= N_LEVEL2 && l <= N_INDIRECT && Base(l) <= N_LEVEL2
    && (if n > Base(l) then sectors == n - Base(l) else sectors == 0)
    && free == free0 + Range(t.data, N_LEVEL1, if n > Base(l) then Base(l) else n)
                     + (set j | 0 <= j < l :: t.mid[j])
    && forall j :: 0 <= j < l ==> Base(j) < n
  }

  /** A second level index sector through which some data sector
      below p is reached is allocated and holds its leaf. */
  lemma LeafRead(d: Disk, h: InodeDisk, t: Tree, p: nat, l: nat)
    requires Stored(d, h, t) && Filled(t, p) && l < N_INDIRECT && Base(l) < p
    ensures t.mid[l] != 0 && IndexOf(ReadSector(d, t.mid[l])) == Leaf(t, l)
  {
    assert Leaf(t, l)[0] == t.data[Base(l)];
  }

  /** The doubly indirect sector of a file beyond level 1 holds the
      second level sector numbers. */
  lemma DoublyRead(d: Disk, h: InodeDisk, t: Tree, p: nat)
    requires Stored(d, h, t) && Filled(t, p) && N_LEVEL1 < p
    ensures t.dbl != 0 && IndexOf(ReadSector(d, t.dbl)) == t.mid
  {
    LeafRead(d, h, t, p, 0);
  }

  /** The indirect sector of a file beyond level 0 holds the level 1
      data sector numbers. */
  lemma IndirectRead(d: Disk, h: InodeDisk, t: Tree, p: nat)
    requires Stored(d, h, t) && Filled(t, p) && N_LEVEL0 < p
    ensures t.ind != 0 && IndexOf(ReadSector(d, t.ind)) == t.data[N_LEVEL0..N_LEVEL1]
  {
    assert t.data[N_LEVEL0..N_LEVEL1][0] == t.data[N_LEVEL0];
  }

  /** The freed entries of leaf l and leaf l itself advance the loop. */
  lemma ReleaseStep(t: Tree, n: nat, free0: set<Sector>, free: set<Sector>, l: nat, sectors: nat,
                    remain: nat, free': set<Sector>)
    requires Shaped(t) && ReleaseLoop(t, n, free0, free, l, sectors) && l < N_INDIRECT && sectors > 0
    requires remain == (if sectors < N_INDIRECT then sectors else N_INDIRECT)
    requires free' == free + Range(t.data, Base(l), Base(l) + remain) + {t.mid[l]}
    ensures ReleaseLoop(t, n, free0, free', l + 1, sectors - remain)
  {
    RangeSplit(t.data, N_LEVEL1, Base(l), Base(l) + remain);
    assert (set j | 0 <= j < l + 1 :: t.mid[j]) == (set j | 0 <= j < l :: t.mid[j]) + {t.mid[l]};
  }

  /** One turn of the loop: the leaf l is read, its first remain entries
      and then leaf l itself are freed. */
  method ReleaseLeaf(d: Disk, mids: seq<Sector>, l: nat, sectors: nat, free: set<Sector>,
                     ghost t: Tree, ghost n: nat, ghost free0: set<Sector>)
    returns (sectors': nat, free': set<Sector>)
    requires Sectors(d) && Shaped(t) && mids == t.mid && l < N_INDIRECT
    requires IndexOf(ReadSector(d, mids[l])) == Leaf(t, l)
    requires ReleaseLoop(t, n, free0, free, l, sectors) && sectors > 0
    ensures ReleaseLoop(t, n, free0, free', l + 1, sectors')
  {
    var leaf := IndexOf(ReadSector(d, mids[l]));
    var remain := if sectors < N_INDIRECT then sectors else N_INDIRECT;
    free' := ReleaseRun(leaf, remain, free);
    BaseBelow(l);
    RangeSlice(t.data, Base(l), Base(l) + N_INDIRECT, remain);
    free' := free' + {mids[l]};
    sectors' := sectors - remain;
    ReleaseStep(t, n, free0, free, l, sectors, remain, free');
  }

  /** Level 2 of do_inode_close, after the first two levels: the leaves
      through which data sectors N_LEVEL1 .. n-1 are reached, then the
      doubly indirect sector. */
  method ReleaseDoubly(d: Disk, h: InodeDisk, n: nat, free: set<Sector>, ghost t: Tree, ghost p: nat)
    returns (free': set<Sector>)
    requires Stored(d, h, t) && Filled(t, p) && N_LEVEL1 < n <= p
    ensures free' == free + Range(t.data, N_LEVEL1, n) + MidsBelow(t, n) + {t.dbl}
  {
    DoublyRead(d, h, t, p);
    var mids := IndexOf(ReadSector(d, h.blocks[DOUBLY_SLOT]));
    free' := free;
    var sectors: nat := n - N_LEVEL1;
    var l: nat := 0;
    while l < N_INDIRECT && sectors > 0
      invariant ReleaseLoop(t, n, free, free', l, sectors)
      decreases N_INDIRECT - l
    {
      LeafRead(d, h, t, p, l);
      sectors, free' := ReleaseLeaf(d, mids, l, sectors, free', t, n, free);
      l := l + 1;
    }
    assert Base(N_INDIRECT) == N_LEVEL2;
    assert n <= Base(l);
    assert (set j | 0 <= j < l :: t.mid[j]) == MidsBelow(t, n);
    free' := free' + {h.blocks[DOUBLY_SLOT]};
  }

  /** do_inode_close: the sectors of a file of n data sectors whose
      header h is stored with the tree t go back to the free map.
      Above N_LEVEL2 sectors nothing happens and false comes back. */
  method DoClose(d: Disk, h: InodeDisk, n: nat, free: set<Sector>, ghost t: Tree, ghost p: nat)
    returns (ok: bool, free': set<Sector>)
    requires Stored(d, h, t) && Filled(t, p) && (n <= p || n > N_LEVEL2)
    ensures ok <==> n <= N_LEVEL2
    ensures ok ==> free' == free + Released(t, n)
    ensures !ok ==> free' == free
    decreases n
  {
    if n > N_LEVEL2 {
      return false, free;
    }
    if n <= N_LEVEL0 {
      free' := ReleaseRun(h.blocks, n, free);
      assert h.blocks[..N_LEVEL0] == t.data[..N_LEVEL0];
      assert Range(h.blocks, 0, n) == Range(t.data, 0, n) by {
        RangeSlice(h.blocks, 0, N_LEVEL0, n);
        RangeSlice(t.data, 0, N_LEVEL0, n);
      }
      return true, free';
    }
    var below := if n > N_LEVEL1 then N_LEVEL1 else N_LEVEL0;
    var _, free1 := DoClose(d, h, below, free, t, p);
    if n > N_LEVEL1 {
      free' := ReleaseDoubly(d, h, n, free1, t, p);
      RangeSplit(t.data, 0, N_LEVEL1, n);
    } else {
      IndirectRead(d, h, t, p);
      var block := IndexOf(ReadSector(d, h.blocks[INDIRECT_SLOT]));
      free' := ReleaseRun(block, n - N_LEVEL0, free1);
      free' := free' + {h.blocks[INDIRECT_SLOT]};
      RangeSlice(t.data, N_LEVEL0, N_LEVEL1, n - N_LEVEL0);
      RangeSplit(t.data, 0, N_LEVEL0, n);
    }
    ok := true;
  }

  // ---------------------------------------------------------------------
  // What a release gives back

  /** A tree whose index sectors are exactly those its n data sectors
      need: as do_inode_create leaves it when it succeeds. */
  ghost predicate NoSparePointers(t: Tree, n: nat)
    requires Shaped(t)
  {
    (t.ind != 0 ==> n > N_LEVEL0) && (t.dbl != 0 ==> n > N_LEVEL1)
  }

  /** Releasing a file whose sectors are exactly its n data sectors and
      the index sectors they need hands back every sector it uses. */
  lemma ReleasedAll(d: Disk, h: InodeDisk, t: Tree, n: nat)
    requires Stored(d, h, t) && Filled(t, n) && MidFilled(t) && NoSparePointers(t, n)
    ensures Released(t, n) == Used(t)
  {
    UsedReleased(t, n);
    ReleasedUsed(d, h, t, n, n);
  }

  lemma {:induction false} UsedReleased(t: Tree, n: nat)
    requires Filled(t, n) && MidFilled(t) && NoSparePointers(t, n)
    ensures Used(t) <= Released(t, n)
  {
    var f := Flat(t);
    forall x | x in Used(t)
      ensures x in Released(t, n)
    {
      var i :| 0 <= i < |f| && f[i] != 0 && f[i] == x;
      if i < N_LEVEL2 {
        assert f[i] == t.data[i];
        assert x in Range(t.data, 0, n);
      } else if i >= MID_AT {
        var j := i - MID_AT;
        assert f[i] == t.mid[j];
        assert t.data[Base(j)] != 0;
        assert x in MidsBelow(t, n);
      } else {
        assert i == IND_AT || i == DBL_AT;
        assert f[IND_AT] == t.ind && f[DBL_AT] == t.dbl;
      }
    }
  }

  lemma {:induction false} ReleasedUsed(d: Disk, h: InodeDisk, t: Tree, p: nat, n: nat)
    requires Stored(d, h, t) && Filled(t, p) && n <= p
    ensures Released(t, n) <= Used(t)
  {
    var f := Flat(t);
    forall x | x in Released(t, n)
      ensures x in Used(t)
    {
      if x in Range(t.data, 0, n) {
        var k :| 0 <= k < n && t.data[k] == x;
        assert f[k] == x;
      } else if x in MidsBelow(t, n) {
        var j :| 0 <= j < N_INDIRECT && Base(j) < n && t.mid[j] == x;
        LeafRead(d, h, t, p, j);
        assert f[MID_AT + j] == x;
      } else if n > N_LEVEL1 && x == t.dbl {
        DoublyRead(d, h, t, p);
        assert f[DBL_AT] == x;
      } else {
        assert n > N_LEVEL0 && x == t.ind;
        IndirectRead(d, h, t, p);
        assert f[IND_AT] == x;
      }
    }
  }
}
