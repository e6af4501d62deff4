/** The inode layer as the directory and path code see it. Modules Inode
    and OpenInodes model filesys/inode.c down to the sectors; here what
    directory.c and filesys.c rely on is kept: the content of every inode
    on disk, which of them are directories, the open list's open counts
    and removed and deny-write flags, and the free map. */
module Volumes {
  import opened Bytes
  import opened Block
  import opened Wrappers
  import InodeLayout
  import InodeData
  import opened DirSlots

  /** ROOT_DIR_SECTOR (filesys/filesys.h) */
  const ROOT_DIR_SECTOR: Sector := 1
  /** block_sector_t is 32 bits wide. */
  const SECTOR_LIMIT: nat := 0x1_0000_0000
  /** The largest file do_inode_create builds, in bytes. */
  const MAX_LENGTH: nat := SECTOR_SIZE * InodeLayout.N_LEVEL2

  /** The inode layer's state:
      files   - the content of every inode on disk, by header sector;
      dirs    - the inodes created with is_dir;
      opens   - open_cnt of every inode on the open list;
      removed - the open inodes marked removed;
      denied  - the open inodes with deny_write_cnt > 0;
      free    - the free map;
      room    - whether the free map can supply the sectors a file that
                is created or grows needs (which ones is not modelled). */
  datatype State = State(files: map<Sector, seq<byte>>, dirs: set<Sector>, opens: map<Sector, nat>,
                         removed: set<Sector>, denied: set<Sector>, free: set<Sector>, room: bool)

  ghost predicate Ok(st: State)
  {
    && st.dirs <= st.files.Keys && st.opens.Keys <= st.files.Keys
    && st.removed <= st.opens.Keys && st.denied <= st.opens.Keys
    && (forall s :: s in st.opens ==> st.opens[s] > 0)
    && (forall s :: s in st.files ==> s < SECTOR_LIMIT && s !in st.free)
    && (forall s :: s in st.free ==> s < SECTOR_LIMIT)
    && (forall s :: s in st.dirs ==> DirOk(st.files[s]))
  }

  /** open_cnt of s, 0 when it is not on the open list. */
  function Count(st: State, s: Sector): nat
  {
    if s in st.opens then st.opens[s] else 0
  }

  /** inode_open of an inode on disk: one more opener. */
  function Opened(st: State, s: Sector): (st': State)
    ensures Count(st', s) == Count(st, s) + 1
    ensures forall t :: t != s ==> Count(st', t) == Count(st, t)
  {
    st.(opens := st.opens[s := Count(st, s) + 1])
  }

  /** inode_close: one opener fewer; the last closer takes the inode off
      the list, and if it was removed frees its header sector and drops
      its content. */
  function Closed(st: State, s: Sector): (st': State)
    requires s in st.opens && st.opens[s] > 0
    ensures Count(st', s) == Count(st, s) - 1
    ensures forall t :: t != s ==> Count(st', t) == Count(st, t)
  {
    if st.opens[s] > 1 then st.(opens := st.opens[s := st.opens[s] - 1])
    else
      var st1 := st.(opens := st.opens - {s}, denied := st.denied - {s});
      if s in st.removed then
        st1.(files := st.files - {s}, dirs := st.dirs - {s}, removed := st.removed - {s}, free := st.free + {s})
      else st1
  }

  /** Whether inode_write_at writes len bytes at ofs into s: not while
      writes are denied, and past the end only if the file can grow, which
      needs room on the free map and a new length of at most MAX_LENGTH. */
  predicate WriteAccepted(st: State, s: Sector, ofs: nat, len: nat)
    requires s in st.files
  {
    s !in st.denied && (ofs + len <= |st.files[s]| || (st.room && ofs + len <= MAX_LENGTH))
  }

  /** inode_write_at: all of buf, or nothing. */
  function Wrote(st: State, s: Sector, ofs: nat, buf: seq<byte>): State
    requires s in st.files
  {
    if WriteAccepted(st, s, ofs, |buf|) then st.(files := st.files[s := InodeData.Written(st.files[s], ofs, buf)]) else st
  }

  /** Opening an inode and closing it again leaves the state as it was. */
  lemma OpenClose(st: State, s: Sector)
    requires Ok(st) && s in st.files
    ensures Closed(Opened(st, s), s) == st
  {
    var st' := Closed(Opened(st, s), s);
    if s !in st.opens {
      assert st.opens[s := 1] - {s} == st.opens;
    } else {
      assert st.opens[s := st.opens[s] + 1][s := st.opens[s]] == st.opens;
    }
  }

  /** A last close of a removed inode frees its sector; any other close
      keeps every inode on disk. */
  lemma ClosedFrees(st: State, s: Sector)
    requires Ok(st) && s in st.opens
    ensures var st' := Closed(st, s);
      && Ok(st')
      && (st.opens[s] == 1 && s in st.removed ==> st'.files == st.files - {s} && st'.free == st.free + {s})
      && (st.opens[s] > 1 || s !in st.removed ==> st'.files == st.files && st'.free == st.free)
  {
  }

  /** A write keeps the state well formed when it leaves a directory
      well formed. */
  lemma WroteOk(st: State, s: Sector, ofs: nat, buf: seq<byte>)
    requires Ok(st) && s in st.files
    requires s in st.dirs ==> DirOk(InodeData.Written(st.files[s], ofs, buf))
    ensures Ok(Wrote(st, s, ofs, buf))
  {
  }

  class Volume {
    var files: map<Sector, seq<byte>>
    var dirs: set<Sector>
    var opens: map<Sector, nat>
    var removed: set<Sector>
    var denied: set<Sector>
    var free: set<Sector>
    var room: bool

    function St(): State
      reads this
    {
      State(files, dirs, opens, removed, denied, free, room)
    }

    ghost predicate Valid()
      reads this
    {
      Ok(St())
    }

    /** A volume whose disk holds the given inodes and no inode open. */
    constructor (files0: map<Sector, seq<byte>>, dirs0: set<Sector>, free0: set<Sector>, room0: bool)
      requires Ok(State(files0, dirs0, map[], {}, {}, free0, room0))
      ensures Valid() && St() == State(files0, dirs0, map[], {}, {}, free0, room0)
    {
      files, dirs, opens, removed, denied, free, room := files0, dirs0, map[], {}, {}, free0, room0;
    }

    /** inode_open: the inode at s, with one more opener; no inode when
        s holds none. */
    method Open(s: Sector) returns (inode: Option<Sector>)
      requires Valid()
      modifies this
      ensures Valid()
      ensures s in old(files) ==> inode == Some(s) && St() == Opened(old(St()), s)
      ensures s !in old(files) ==> inode == None && St() == old(St())
    {
      if s !in files {
        return None;
      }
      var n := if s in opens then opens[s] else 0;
      opens := opens[s := n + 1];
      return Some(s);
    }

    /** inode_reopen */
    method Reopen(s: Sector)
      requires Valid() && s in opens
      modifies this
      ensures Valid() && St() == Opened(old(St()), s)
    {
      opens := opens[s := opens[s] + 1];
    }

    /** inode_close; closing no inode does nothing. */
    method Close(inode: Option<Sector>)
      requires Valid() && (inode.Some? ==> inode.value in opens)
      modifies this
      ensures Valid()
      ensures inode.None? ==> St() == old(St())
      ensures inode.Some? ==> St() == Closed(old(St()), inode.value)
    {
      if inode.None? {
        return;
      }
      var s := inode.value;
      ClosedFrees(St(), s);
      if opens[s] > 1 {
        opens := opens[s := opens[s] - 1];
        return;
      }
      opens, denied := opens - {s}, denied - {s};
      if s in removed {
        files, dirs, removed, free := files - {s}, dirs - {s}, removed - {s}, free + {s};
      }
    }

    /** inode_remove */
    method Remove(s: Sector)
      requires Valid() && s in opens
      modifies this
      ensures Valid() && St() == old(St()).(removed := old(removed) + {s})
    {
      removed := removed + {s};
    }

    /** inode_write_at of buf at ofs into the open inode s. */
    method Write(s: Sector, buf: seq<byte>, ofs: nat) returns (n: int)
      requires Valid() && s in opens
      requires s in dirs ==> DirOk(InodeData.Written(files[s], ofs, buf))
      modifies this
      ensures Valid() && St() == Wrote(old(St()), s, ofs, buf)
      ensures n == if WriteAccepted(old(St()), s, ofs, |buf|) then |buf| else 0
    {
      WroteOk(St(), s, ofs, buf);
      if s in denied || (ofs + |buf| > |files[s]| && (!room || ofs + |buf| > MAX_LENGTH)) {
        return 0;
      }
      files := files[s := InodeData.Written(files[s], ofs, buf)];
      return |buf|;
    }

    /** inode_create: a file of length zero bytes at the unused sector s,
        unless the file is too long or the free map cannot supply its
        sectors. */
    method Create(s: Sector, length: nat, isDir: bool) returns (ok: bool)
      requires Valid() && s < SECTOR_LIMIT && s !in files && s !in free
      modifies this
      ensures Valid()
      ensures ok == (room && length <= MAX_LENGTH)
      ensures ok ==> St() == old(St()).(files := old(files)[s := Zeros(length)],
                                        dirs := if isDir then old(dirs) + {s} else old(dirs))
      ensures !ok ==> St() == old(St())
    {
      if !room || length > MAX_LENGTH {
        return false;
      }
      ZerosOk(length);
      files := files[s := Zeros(length)];
      if isDir {
        dirs := dirs + {s};
      }
      return true;
    }

    /** free_map_allocate (1, &s): some free sector, taken from the map. */
    method Allocate() returns (ok: bool, s: Sector)
      requires Valid()
      modifies this
      ensures Valid()
      ensures ok == (old(free) != {})
      ensures ok ==> s in old(free) && St() == old(St()).(free := old(free) - {s})
      ensures !ok ==> St() == old(St())
    {
      if free == {} {
        return false, 0;
      }
      s :| s in free;
      free := free - {s};
      return true, s;
    }

    /** free_map_release (s, 1) of the header of an inode nobody has
        open: the sector is free again and holds no inode. */
    method Release(s: Sector)
      requires Valid() && s < SECTOR_LIMIT && s !in opens
      modifies this
      ensures Valid()
      ensures St() == old(St()).(files := old(files) - {s}, dirs := old(dirs) - {s}, free := old(free) + {s})
    {
      files, dirs, free := files - {s}, dirs - {s}, free + {s};
    }
  }
}
