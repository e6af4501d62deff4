/** The list of open inodes as an object: inode_open, inode_reopen,
    inode_close, inode_remove, inode_deny_write, inode_allow_write,
    inode_length, inode_read_at and inode_write_at of inode.c, each
    proved against the step predicates of module Inode. */
module OpenInodes {
  import opened Bytes
  import opened Block
  import opened Wrappers
  import opened InodeLayout
  import opened InodeTree
  import opened InodeGrow
  import opened InodeRelease
  import opened InodeData
  import opened Inode

  /** The open inodes over the device (open_inodes in inode.c): each
      open inode with the layout of its sectors, and the block device with
      its free map, which every operation threads through. Open inodes are
      named by their header sector, as the list holds one struct inode per
      sector. */
  class InodeTable {
    var dev: Dev
    var open: seq<OpenInode>
    ghost var lays: seq<Layout>

    ghost predicate Valid()
      reads this
    {
      TableOk(dev, open, lays)
    }

    /** The bytes of each open inode, by sector. */
    ghost function FileMap(): map<Sector, seq<byte>>
      reads this
      requires Valid()
    {
      Files(dev, open, lays)
    }

    /** inode_init: no inode is open. */
    constructor (dev0: Dev)
      requires DevOk(dev0)
      ensures Valid() && dev == dev0 && open == [] && FileMap() == map[]
    {
      dev := dev0;
      open := [];
      lays := [];
    }

    /** inode_create on a sector no open inode uses. The open inodes and
        their bytes stay as they were; on success the new inode can be
        opened. */
    method Create(sector: Sector, length: int, isDir: bool) returns (ok: bool, ghost t: Tree, ghost p: nat)
      requires Valid() && sector !in dev.free && Spare(open, lays, sector) && 0 <= length < 0x8000_0000
      modifies this
      ensures Valid() && open == old(open) && lays == old(lays) && FileMap() == old(FileMap())
      ensures dev.free <= old(dev.free)
      ensures ok ==> Created(dev, sector, length, isDir, t, p) && Alone(open, lays, sector, t)
      ensures !ok ==> (dev.free == {} || length > SECTOR_SIZE * N_LEVEL2) && ReadSector(dev.disk, sector) == ReadSector(old(dev.disk), sector)
    {
      ghost var dev0 := dev;
      ok, dev, t, p := InodeCreate(dev, sector, length, isDir);
      CreateKeeps(dev0, open, lays, sector, dev, t);
    }

    /** inode_open: see Opened. A sector no open inode is on must hold an
        inode apart from the open ones. */
    method Open(sector: Sector, ghost t: Tree, ghost p: nat)
      requires Valid() && (sector !in Keys(open) ==> Openable(dev, open, lays, sector, t, p))
      modifies this
      ensures Opened(old(dev), old(open), old(lays), dev, open, lays, sector, t, p)
    {
      ghost var dev0, lays0 := dev, lays;
      var open0 := open;
      var i := FindOpen(open0, sector);
      if i >= 0 {
        Reopen(Some(sector));
        OpenedOld(dev0, open0, lays0, dev, open, lays, sector, t, p);
        return;
      }
      open := [OpenInode(sector, 1, 0, false, DecodeInode(ReadSector(dev.disk, sector)))] + open0;
      lays := [Layout(t, p)] + lays0;
      OpenedNew(dev0, open0, lays0, dev, open, lays, sector, t, p);
    }

    /** The counts or flag of the open inode on o'.sector become those of
        o'. */
    method SetEntry(o': OpenInode)
      requires Recount(dev, open, lays, o')
      modifies this
      ensures Recounted(old(dev), old(open), old(lays), dev, open, lays, o')
    {
      ghost var dev0, open0, lays0 := dev, open, lays;
      open := open[Find(open, o'.sector) := o'];
      RecountOk(dev0, open0, lays0, dev, open, lays, o');
    }

    /** inode_reopen: one more opener; nothing for a null inode. */
    method Reopen(inode: Option<Sector>)
      requires Valid() && (inode.Some? ==> inode.value in Keys(open))
      modifies this
      ensures inode.None? ==> dev == old(dev) && open == old(open) && lays == old(lays)
      ensures inode.Some? ==> Recounted(old(dev), old(open), old(lays), dev, open, lays, Bumped(old(At(open, inode.value))))
    {
      if inode.Some? {
        var o := At(open, inode.value);
        AtCounts(dev, open, lays, inode.value);
        SetEntry(Bumped(o));
      }
    }

    /** inode_close: see Closed; nothing for a null inode. Every opener
        that denied writes has allowed them again before closing. */
    method Close(inode: Option<Sector>)
      requires Valid() && (inode.Some? ==> inode.value in Keys(open) && At(open, inode.value).denyWriteCnt < At(open, inode.value).openCnt)
      modifies this
      ensures inode.None? ==> dev == old(dev) && open == old(open) && lays == old(lays)
      ensures inode.Some? ==> Closed(old(dev), old(open), old(lays), dev, open, lays, inode.value)
    {
      if inode.None? {
        return;
      }
      var i := Find(open, inode.value);
      var o := open[i];
      assert Member(dev, o, lays[i]);
      if o.openCnt - 1 != 0 {
        ghost var dev0, open0, lays0 := dev, open, lays;
        SetEntry(o.(openCnt := o.openCnt - 1));
        ClosedOne(dev0, open0, lays0, dev, open, lays, inode.value);
        return;
      }
      ghost var dev0, open0, lays0, l := dev, open, lays, lays[i];
      open := Cut(open, i);
      lays := Cut(lays, i);
      if o.removed {
        var free := dev.free + {o.sector};
        if o.data.length >= 0 {
          CloseArgs(dev0, open0, lays0, i);
          var _, free' := DoClose(dev.disk, o.data, BytesToSectors(o.data.length), free, l.tree, l.size);
          free := free';
        }
        dev := dev.(free := free);
      }
      ClosedLast(dev0, open0, lays0, i, dev);
    }

    /** inode_remove: the inode is marked to be freed at its last close. */
    method Remove(s: Sector)
      requires Valid() && s in Keys(open)
      modifies this
      ensures Recounted(old(dev), old(open), old(lays), dev, open, lays, old(At(open, s)).(removed := true))
    {
      var o := At(open, s);
      AtCounts(dev, open, lays, s);
      SetEntry(o.(removed := true));
    }

    /** inode_deny_write: at most once per opener. */
    method DenyWrite(s: Sector)
      requires Valid() && s in Keys(open) && At(open, s).denyWriteCnt < At(open, s).openCnt
      modifies this
      ensures Recounted(old(dev), old(open), old(lays), dev, open, lays, Denied(old(At(open, s))))
    {
      var o := At(open, s);
      AtCounts(dev, open, lays, s);
      SetEntry(Denied(o));
    }

    /** inode_allow_write: only after a deny. */
    method AllowWrite(s: Sector)
      requires Valid() && s in Keys(open) && At(open, s).denyWriteCnt > 0
      modifies this
      ensures Recounted(old(dev), old(open), old(lays), dev, open, lays,
                        old(At(open, s)).(denyWriteCnt := old(At(open, s)).denyWriteCnt - 1))
    {
      var o := At(open, s);
      AtCounts(dev, open, lays, s);
      SetEntry(o.(denyWriteCnt := o.denyWriteCnt - 1));
    }

    /** inode_length: the number of bytes of the file. */
    method Length(s: Sector) returns (n: int)
      requires Valid() && s in Keys(open)
      ensures n == |FileMap()[s]|
    {
      n := At(open, s).data.length;
    }

    /** inode_read_at: up to size bytes from offset, fewer at the end of
        the file. */
    method ReadAt(s: Sector, size: int, offset: int) returns (r: seq<byte>)
      requires Valid() && s in Keys(open) && offset >= 0
      ensures |r| == ReadCount(|FileMap()[s]|, size, offset)
      ensures |r| > 0 ==> r == FileMap()[s][offset .. offset + |r|]
    {
      var i := Find(open, s);
      assert Member(dev, open[i], lays[i]);
      r := InodeData.ReadAt(dev, open[i].data, size, offset, s, lays[i].tree, lays[i].size);
    }

    /** inode_write_at: see Wrote. */
    method WriteAt(s: Sector, buf: seq<byte>, offset: int) returns (n: int)
      requires Valid() && s in Keys(open) && offset >= 0 && offset + |buf| < 0x8000_0000
      modifies this
      ensures Wrote(old(dev), old(open), old(lays), dev, open, lays, s, buf, offset, n)
    {
      n, dev, open, lays := WriteOpen(dev, open, lays, s, buf, offset);
    }
  }
}
