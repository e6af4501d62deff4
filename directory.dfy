/** Directories (filesys/directory.c): struct dir, a handle on an open
    directory inode with a read position, and the operations that add,
    find and remove entries through the inode layer of module Volumes. */
module Directory {
  import opened Bytes
  import opened Block
  import opened Wrappers
  import opened DirSlots
  import opened Volumes

  /** struct dir */
  class Dir {
    const inode: Sector
    var pos: nat

    constructor (inode: Sector)
      ensures this.inode == inode && pos == 0
    {
      this.inode := inode;
      pos := 0;
    }
  }

  /** The sector the first entry in use under name points to. */
  ghost function Target(c: seq<byte>, name: seq<byte>): (t: Option<Sector>)
    ensures t.Some? <==> Holds(c, name)
    ensures t.Some? ==> t.value < SECTOR_LIMIT
  {
    var r := Find(c, name, 0);
    if r.Some? then Some(Slot(c, r.value).sector) else None
  }

  /** The directory with a "." entry for s, added when it had none. */
  ghost function Selfed(c: seq<byte>, s: Sector): seq<byte>
    requires s < SECTOR_LIMIT
  {
    if Holds(c, DOT) then c else Add(c, DOT, s)
  }

  /** A write into a free slot leaves every other name where it was. */
  lemma {:induction false} AddFindOther(c: seq<byte>, name: seq<byte>, sector: Sector, x: seq<byte>)
    requires sector < SECTOR_LIMIT && CStr(name) && |name| <= NAME_MAX && x != name
    ensures Find(Add(c, name, sector), x, 0) == Find(c, x, 0)
    ensures Holds(Add(c, name, sector), x) == Holds(c, x)
  {
    var c', k := Add(c, name, sector), FreeSlot(c, 0);
    AddSlots(c, name, sector);
    AddHolds(c, name, sector);
    forall i: nat
      ensures Named(c', i, x) == Named(c, i, x)
    {
    }
    FindSame(c, c', x, 0);
  }

  /** Two directories with the same slots in use under x find x alike. */
  lemma {:induction false} FindSame(c: seq<byte>, c': seq<byte>, x: seq<byte>, k: nat)
    requires forall i: nat :: Named(c', i, x) == Named(c, i, x)
    ensures Find(c', x, k) == Find(c, x, k)
  {
    var r, r' := Find(c, x, k), Find(c', x, k);
    if r.Some? && r'.Some? {
      assert !(r.value < r'.value) && !(r'.value < r.value);
    }
  }

  /** Adding "." keeps a directory as empty as it was. */
  lemma SelfedEmpty(c: seq<byte>, s: Sector)
    requires s < SECTOR_LIMIT
    ensures Empty(Selfed(c, s)) == Empty(c)
  {
    if !Holds(c, DOT) {
      var c', k := Add(c, DOT, s), FreeSlot(c, 0);
      AddSlots(c, DOT, s);
      if Empty(c) {
        forall j: nat | InDir(c', j) && Slot(c', j).inUse
          ensures IsLink(Slot(c', j).name)
        {
        }
      }
      if Empty(c') {
        forall j: nat | InDir(c, j) && Slot(c, j).inUse
          ensures IsLink(Slot(c, j).name)
        {
          assert j != k;
        }
      }
    }
  }

  /** A slot in use keeps its entry when another name is added. */
  lemma AddKeepsNamed(c: seq<byte>, name: seq<byte>, sector: Sector, k: nat, x: seq<byte>)
    requires sector < SECTOR_LIMIT && CStr(name) && |name| <= NAME_MAX && Named(c, k, x)
    ensures var c' := Add(c, name, sector); Named(c', k, x) && Slot(c', k) == Slot(c, k)
  {
    AddSlots(c, name, sector);
  }

  /** Adding a name keeps the target of every other name. */
  lemma {:induction false} TargetAddOther(c: seq<byte>, name: seq<byte>, sector: Sector, x: seq<byte>)
    requires sector < SECTOR_LIMIT && CStr(name) && |name| <= NAME_MAX && x != name
    ensures Target(Add(c, name, sector), x) == Target(c, x)
  {
    AddFindOther(c, name, sector, x);
    var r := Find(c, x, 0);
    if r.Some? {
      AddKeepsNamed(c, name, sector, r.value, x);
    }
  }

  /** Erasing the slot of name leaves every other name where it was. */
  lemma {:induction false} TargetEraseOther(c: seq<byte>, k: nat, name: seq<byte>, x: seq<byte>)
    requires Named(c, k, name) && x != name
    ensures Target(Erase(c, k), x) == Target(c, x)
  {
    var c' := Erase(c, k);
    EraseSlots(c, k);
    forall i: nat
      ensures Named(c', i, x) == Named(c, i, x)
    {
    }
    FindSame(c, c', x, 0);
    var r := Find(c, x, 0);
    if r.Some? {
      assert r.value != k;
    }
  }

  // ---------------------------------------------------------------------
  // dir_add_entry, on the inode layer's state

  /** What dir_add_entry returns for name in the directory at s. */
  ghost function EntryR(st: State, s: Sector, name: seq<byte>): int
    requires s in st.files
  {
    if !ValidName(name) then -1
    else if Holds(st.files[s], name) then 0
    else if WriteAccepted(st, s, ENTRY_SIZE * FreeSlot(st.files[s], 0), ENTRY_SIZE) then 1
    else -1
  }

  /** The directory at s after dir_add_entry. */
  ghost function EntryC(st: State, s: Sector, name: seq<byte>, sector: Sector): seq<byte>
    requires s in st.files && CStr(name) && sector < SECTOR_LIMIT
  {
    if EntryR(st, s, name) == 1 then Add(st.files[s], name, sector) else st.files[s]
  }

  /** The state dir_add_entry leaves: only the directory at s changes. */
  ghost function EntryS(st: State, s: Sector, name: seq<byte>, sector: Sector): State
    requires s in st.files && CStr(name) && sector < SECTOR_LIMIT
  {
    st.(files := st.files[s := EntryC(st, s, name, sector)])
  }

  /** A dir_add_entry that fails or finds the name changes nothing. */
  lemma EntrySame(st: State, s: Sector, name: seq<byte>, sector: Sector)
    requires s in st.files && CStr(name) && sector < SECTOR_LIMIT && EntryR(st, s, name) != 1
    ensures EntryS(st, s, name, sector) == st
  {
    assert st.files[s := st.files[s]] == st.files;
  }

  /** A result of 1 from dir_add_entry means a new valid name now leading
      to sector, and a result of 0 or 1 that name is there; every name
      held stays held, and every other name keeps its target. */
  lemma EntryAdds(st: State, s: Sector, name: seq<byte>, sector: Sector, x: seq<byte>)
    requires s in st.files && CStr(name) && sector < SECTOR_LIMIT
    ensures var r, c, c' := EntryR(st, s, name), st.files[s], EntryC(st, s, name, sector);
      && (r == 1 ==> ValidName(name) && !Holds(c, name) && Target(c', name) == Some(sector))
      && (r >= 0 ==> Holds(c', name))
      && (Holds(c, x) ==> Holds(c', x))
      && (x != name ==> Target(c', x) == Target(c, x))
  {
    if EntryR(st, s, name) == 1 {
      var c := st.files[s];
      AddFinds(c, name, sector);
      AddHolds(c, name, sector);
      if x != name {
        TargetAddOther(c, name, sector, x);
      }
    }
  }

  /** dir_add_entry keeps the inode layer's state well formed. */
  lemma EntryOk(st: State, s: Sector, name: seq<byte>, sector: Sector)
    requires Ok(st) && s in st.files && CStr(name) && sector < SECTOR_LIMIT
    ensures Ok(EntryS(st, s, name, sector))
  {
    if EntryR(st, s, name) == 1 && s in st.dirs {
      AddOk(st.files[s], name, sector);
    }
  }

  /** An extra opener of any inode changes nothing dir_add_entry reads. */
  lemma EntryOpened(st: State, t: Sector, s: Sector, name: seq<byte>, sector: Sector)
    requires s in st.files && CStr(name) && sector < SECTOR_LIMIT
    ensures EntryR(Opened(st, t), s, name) == EntryR(st, s, name)
    ensures EntryS(Opened(st, t), s, name, sector) == Opened(EntryS(st, s, name, sector), t)
  {
  }

  /** A slot in use keeps its entry when dir_add_entry writes anywhere. */
  lemma EntryKeepsNamed(st: State, s: Sector, name: seq<byte>, sector: Sector, f: Sector, k: nat, x: seq<byte>)
    requires s in st.files && CStr(name) && sector < SECTOR_LIMIT && f in st.files && Named(st.files[f], k, x)
    ensures var c' := EntryS(st, s, name, sector).files[f]; Named(c', k, x) && Slot(c', k) == Slot(st.files[f], k)
  {
    if EntryR(st, s, name) == 1 && s == f {
      AddKeepsNamed(st.files[f], name, sector, k, x);
    }
  }

  // ---------------------------------------------------------------------
  // dir_add_father_entry, on the inode layer's state

  /** What dir_add_father_entry returns for the directories at f and c. */
  ghost function FatherR(st: State, f: Sector, c: Sector): int
    requires f in st.files && c in st.files && f < SECTOR_LIMIT && c < SECTOR_LIMIT
  {
    if EntryR(st, c, DOT) < 0 then -1
    else
      var st1 := EntryS(st, c, DOT, c);
      if EntryR(st1, f, DOT) < 0 then -1
      else EntryR(EntryS(st1, f, DOT, f), c, DOTDOT)
  }

  /** The state dir_add_father_entry leaves. */
  ghost function FatherS(st: State, f: Sector, c: Sector): State
    requires f in st.files && c in st.files && f < SECTOR_LIMIT && c < SECTOR_LIMIT
  {
    if EntryR(st, c, DOT) < 0 then st
    else
      var st1 := EntryS(st, c, DOT, c);
      if EntryR(st1, f, DOT) < 0 then st1
      else EntryS(EntryS(st1, f, DOT, f), c, DOTDOT, f)
  }

  /** dir_add_father_entry changes the two directories and nothing else. */
  lemma FatherFrame(st: State, f: Sector, c: Sector)
    requires f in st.files && c in st.files && f < SECTOR_LIMIT && c < SECTOR_LIMIT
    ensures var st' := FatherS(st, f, c);
      && st' == st.(files := st'.files)
      && (forall t :: t in st'.files <==> t in st.files)
      && (forall t :: t in st.files && t != f && t != c ==> st'.files[t] == st.files[t])
  {
  }

  /** dir_add_father_entry fails on a child that has ".." already. */
  lemma FatherRefuses(st: State, f: Sector, c: Sector)
    requires f in st.files && c in st.files && f < SECTOR_LIMIT && c < SECTOR_LIMIT && f != c
    requires Holds(st.files[c], DOTDOT)
    ensures FatherR(st, f, c) <= 0
  {
    if EntryR(st, c, DOT) >= 0 {
      var st1 := EntryS(st, c, DOT, c);
      EntryAdds(st, c, DOT, c, DOTDOT);
      if EntryR(st1, f, DOT) >= 0 {
        var st2 := EntryS(st1, f, DOT, f);
        assert st2.files[c] == st1.files[c];
        assert Holds(st2.files[c], DOTDOT);
      }
    }
  }

  /** On success of dir_add_father_entry both directories have "." and
      the child's ".." leads to the father. */
  lemma FatherLinked(st: State, f: Sector, c: Sector)
    requires f in st.files && c in st.files && f < SECTOR_LIMIT && c < SECTOR_LIMIT && f != c
    requires FatherR(st, f, c) > 0
    ensures var c' := FatherS(st, f, c).files;
      Holds(c'[c], DOT) && Holds(c'[f], DOT) && Target(c'[c], DOTDOT) == Some(f)
  {
    var st1 := EntryS(st, c, DOT, c);
    EntryAdds(st, c, DOT, c, DOT);
    var st2 := EntryS(st1, f, DOT, f);
    EntryAdds(st1, f, DOT, f, DOT);
    EntryAdds(st2, c, DOTDOT, f, DOT);
  }

  /** dir_add_father_entry keeps every name of the father, and every name
      there but "." keeps its target. */
  lemma FatherKeeps(st: State, f: Sector, c: Sector, x: seq<byte>)
    requires f in st.files && c in st.files && f < SECTOR_LIMIT && c < SECTOR_LIMIT && f != c
    ensures var c' := FatherS(st, f, c).files[f];
      && (Holds(st.files[f], x) ==> Holds(c', x))
      && (x != DOT ==> Target(c', x) == Target(st.files[f], x))
  {
    if EntryR(st, c, DOT) >= 0 {
      var st1 := EntryS(st, c, DOT, c);
      if EntryR(st1, f, DOT) >= 0 {
        EntryAdds(st1, f, DOT, f, x);
      }
    }
  }

  /** dir_add_father_entry keeps the state well formed. */
  lemma FatherOk(st: State, f: Sector, c: Sector)
    requires Ok(st) && f in st.files && c in st.files
    ensures Ok(FatherS(st, f, c))
  {
    if EntryR(st, c, DOT) >= 0 {
      EntryOk(st, c, DOT, c);
      var st1 := EntryS(st, c, DOT, c);
      if EntryR(st1, f, DOT) >= 0 {
        EntryOk(st1, f, DOT, f);
        EntryOk(EntryS(st1, f, DOT, f), c, DOTDOT, f);
      }
    }
  }

  lemma FatherOpened(st: State, t: Sector, f: Sector, c: Sector)
    requires f in st.files && c in st.files && f < SECTOR_LIMIT && c < SECTOR_LIMIT
    ensures FatherR(Opened(st, t), f, c) == FatherR(st, f, c)
    ensures FatherS(Opened(st, t), f, c) == Opened(FatherS(st, f, c), t)
  {
    EntryOpened(st, t, c, DOT, c);
    var st1 := EntryS(st, c, DOT, c);
    EntryOpened(st1, t, f, DOT, f);
    var st2 := EntryS(st1, f, DOT, f);
    EntryOpened(st2, t, c, DOTDOT, f);
  }

  // ---------------------------------------------------------------------
  // dir_add, on the inode layer's state

  /** Whether the ".." link dir_add makes for a new subdirectory at s
      under the directory at f succeeds. */
  ghost function LinkR(st: State, f: Sector, s: Sector): bool
    requires f in st.files && f < SECTOR_LIMIT && s < SECTOR_LIMIT
  {
    s in st.files && EntryR(st, s, DOT) >= 0 && FatherR(EntryS(st, s, DOT, s), f, s) > 0
  }

  ghost function LinkS(st: State, f: Sector, s: Sector): State
    requires f in st.files && f < SECTOR_LIMIT && s < SECTOR_LIMIT
  {
    if s !in st.files || EntryR(st, s, DOT) < 0 then st else FatherS(EntryS(st, s, DOT, s), f, s)
  }

  /** Whether dir_add succeeds. */
  ghost function DirAddR(st: State, f: Sector, name: seq<byte>, s: Sector, isDir: bool): bool
    requires f in st.files && f < SECTOR_LIMIT && s < SECTOR_LIMIT && CStr(name)
  {
    var st1 := if isDir then LinkS(st, f, s) else st;
    (!isDir || LinkR(st, f, s)) && EntryR(st1, f, name) == 1
  }

  /** The state dir_add leaves. */
  ghost function DirAddS(st: State, f: Sector, name: seq<byte>, s: Sector, isDir: bool): State
    requires f in st.files && f < SECTOR_LIMIT && s < SECTOR_LIMIT && CStr(name)
  {
    var st1 := if isDir then LinkS(st, f, s) else st;
    if isDir && !LinkR(st, f, s) then st1 else EntryS(st1, f, name, s)
  }

  /** dir_add changes the parent at f and the new inode at s and nothing
      else. */
  lemma DirAddFrame(st: State, f: Sector, name: seq<byte>, s: Sector, isDir: bool)
    requires f in st.files && f < SECTOR_LIMIT && s < SECTOR_LIMIT && CStr(name)
    ensures var st' := DirAddS(st, f, name, s, isDir);
      && st' == st.(files := st'.files)
      && (forall t :: t in st'.files <==> t in st.files)
      && (forall t :: t in st.files && t != f && t != s ==> st'.files[t] == st.files[t])
  {
    if isDir && s in st.files && EntryR(st, s, DOT) >= 0 {
      FatherFrame(EntryS(st, s, DOT, s), f, s);
    }
  }

  /** The ".." link keeps every name of the parent, and every name there
      but "." keeps its target. */
  lemma LinkKeeps(st: State, f: Sector, s: Sector, x: seq<byte>)
    requires f in st.files && f < SECTOR_LIMIT && s < SECTOR_LIMIT && s != f
    ensures var c' := LinkS(st, f, s).files[f];
      && (Holds(st.files[f], x) ==> Holds(c', x))
      && (x != DOT ==> Target(c', x) == Target(st.files[f], x))
  {
    if s in st.files && EntryR(st, s, DOT) >= 0 {
      var y := EntryS(st, s, DOT, s);
      FatherKeeps(y, f, s, x);
    }
  }

  /** dir_add fails on an invalid name, a name the parent holds, and for
      a subdirectory on a missing inode or one that has ".." already. */
  lemma DirAddRefuses(st: State, f: Sector, name: seq<byte>, s: Sector, isDir: bool)
    requires f in st.files && f < SECTOR_LIMIT && s < SECTOR_LIMIT && CStr(name) && s != f
    ensures var ok := DirAddR(st, f, name, s, isDir);
      && (!ValidName(name) || Holds(st.files[f], name) ==> !ok)
      && (isDir && s !in st.files ==> !ok)
      && (isDir && s in st.files && Holds(st.files[s], DOTDOT) ==> !ok)
  {
    if isDir {
      LinkKeeps(st, f, s, name);
      if s in st.files && EntryR(st, s, DOT) >= 0 && Holds(st.files[s], DOTDOT) {
        EntryAdds(st, s, DOT, s, DOTDOT);
        FatherRefuses(EntryS(st, s, DOT, s), f, s);
      }
    }
  }

  /** On success of dir_add name leads to s, and a subdirectory has "."
      and ".." leading back to the parent, which has "." too. */
  lemma DirAddLinks(st: State, f: Sector, name: seq<byte>, s: Sector, isDir: bool)
    requires f in st.files && f < SECTOR_LIMIT && s < SECTOR_LIMIT && CStr(name) && s != f
    requires DirAddR(st, f, name, s, isDir)
    ensures var c' := DirAddS(st, f, name, s, isDir).files;
      && Target(c'[f], name) == Some(s)
      && (isDir ==> Holds(c'[f], DOT) && Holds(c'[s], DOT) && Target(c'[s], DOTDOT) == Some(f))
  {
    var st1 := if isDir then LinkS(st, f, s) else st;
    EntryAdds(st1, f, name, s, DOT);
    if isDir {
      var y := EntryS(st, s, DOT, s);
      FatherFrame(y, f, s);
      FatherLinked(y, f, s);
    }
  }

  /** dir_add keeps every name of the parent, and every name there but "."
      and the new one keeps its target. */
  lemma DirAddKeeps(st: State, f: Sector, name: seq<byte>, s: Sector, isDir: bool, x: seq<byte>)
    requires f in st.files && f < SECTOR_LIMIT && s < SECTOR_LIMIT && CStr(name) && s != f
    ensures var c' := DirAddS(st, f, name, s, isDir).files[f];
      && (Holds(st.files[f], x) ==> Holds(c', x))
      && (x != name && x != DOT ==> Target(c', x) == Target(st.files[f], x))
  {
    var st1 := if isDir then LinkS(st, f, s) else st;
    if isDir {
      LinkKeeps(st, f, s, x);
    }
    if !isDir || LinkR(st, f, s) {
      EntryAdds(st1, f, name, s, x);
    }
  }

  lemma LinkOk(st: State, f: Sector, s: Sector)
    requires Ok(st) && f in st.files && f < SECTOR_LIMIT && s < SECTOR_LIMIT
    ensures Ok(LinkS(st, f, s))
  {
    if s in st.files && EntryR(st, s, DOT) >= 0 {
      EntryOk(st, s, DOT, s);
      FatherOk(EntryS(st, s, DOT, s), f, s);
    }
  }

  // ---------------------------------------------------------------------
  // dir_add_entry and the "." and ".." entries

  /** dir_add_entry: -1 for an empty or too long name or a write the
      inode refuses, 0 when the name is already in use, 1 once the entry
      is in the first free slot (or at the end). */
  method AddEntry(v: Volume, s: Sector, name: seq<byte>, sector: Sector) returns (r: int)
    requires v.Valid() && s in v.opens && CStr(name) && sector < SECTOR_LIMIT
    modifies v
    ensures v.Valid()
    ensures r == EntryR(old(v.St()), s, name) && v.St() == EntryS(old(v.St()), s, name, sector)
  {
    if |name| == 0 || |name| > NAME_MAX {
      return -1;
    }
    var c := v.files[s];
    var ofs := LookupAndOffset(c, name);
    if ofs == -1 {
      return 0;
    }
    if s in v.dirs {
      AddOk(c, name, sector);
    }
    var n := v.Write(s, Encode(sector, name), ofs);
    if n != ENTRY_SIZE {
      return -1;
    }
    return 1;
  }

  /** dir_add_self_entry: "." for the directory's own sector. */
  method AddSelf(v: Volume, d: Dir?) returns (r: int)
    requires v.Valid() && (d != null ==> d.inode in v.opens)
    modifies v
    ensures v.Valid()
    ensures d == null ==> r == -1 && v.St() == old(v.St())
    ensures d != null ==> r == EntryR(old(v.St()), d.inode, DOT) && v.St() == EntryS(old(v.St()), d.inode, DOT, d.inode)
  {
    if d == null {
      return -1;
    }
    r := AddEntry(v, d.inode, DOT, d.inode);
  }

  /** dir_add_father_entry: "." in both, then ".." in the child for the
      father's sector; -1 when either directory is missing. */
  method AddFather(v: Volume, father: Dir?, child: Dir?) returns (r: int)
    requires v.Valid() && (father != null ==> father.inode in v.opens) && (child != null ==> child.inode in v.opens)
    modifies v
    ensures v.Valid()
    ensures father == null || child == null ==> r == -1 && v.St() == old(v.St())
    ensures father != null && child != null ==>
      r == FatherR(old(v.St()), father.inode, child.inode) && v.St() == FatherS(old(v.St()), father.inode, child.inode)
  {
    if father == null || child == null {
      return -1;
    }
    var r1 := AddSelf(v, child);
    if r1 < 0 {
      return -1;
    }
    var r2 := AddSelf(v, father);
    if r2 < 0 {
      return -1;
    }
    r := AddEntry(v, child.inode, DOTDOT, father.inode);
  }

  // ---------------------------------------------------------------------
  // Opening and closing

  /** dir_open: takes over the inode's reference and makes sure the
      directory has "."; if that fails the inode is closed and there is
      no directory. */
  method DirOpen(v: Volume, inode: Option<Sector>) returns (d: Dir?)
    requires v.Valid() && (inode.Some? ==> inode.value in v.opens)
    modifies v
    ensures v.Valid()
    ensures inode.None? ==> d == null && v.St() == old(v.St())
    ensures inode.Some? && EntryR(old(v.St()), inode.value, DOT) >= 0 ==>
      && d != null && fresh(d) && d.inode == inode.value && d.pos == 0
      && v.St() == EntryS(old(v.St()), inode.value, DOT, inode.value)
    ensures inode.Some? && EntryR(old(v.St()), inode.value, DOT) < 0 ==>
      d == null && v.St() == Closed(old(v.St()), inode.value)
  {
    if inode.None? {
      v.Close(inode);
      return null;
    }
    d := new Dir(inode.value);
    var r := AddSelf(v, d);
    if r < 0 {
      EntrySame(old(v.St()), inode.value, DOT, inode.value);
      v.Close(inode);
      return null;
    }
  }

  /** dir_close */
  method DirClose(v: Volume, d: Dir?)
    requires v.Valid() && (d != null ==> d.inode in v.opens)
    modifies v
    ensures v.Valid()
    ensures d == null ==> v.St() == old(v.St())
    ensures d != null ==> v.St() == Closed(old(v.St()), d.inode)
  {
    if d != null {
      v.Close(Some(d.inode));
    }
  }

  /** dir_open_root: a directory on the root inode, when that exists and
      has or takes its "."; otherwise nothing changes. */
  method DirOpenRoot(v: Volume) returns (d: Dir?)
    requires v.Valid()
    modifies v
    ensures v.Valid()
    ensures d != null <==> ROOT_DIR_SECTOR in old(v.files) && EntryR(old(v.St()), ROOT_DIR_SECTOR, DOT) >= 0
    ensures d != null ==> && fresh(d) && d.inode == ROOT_DIR_SECTOR && d.pos == 0
                          && v.St() == Opened(EntryS(old(v.St()), ROOT_DIR_SECTOR, DOT, ROOT_DIR_SECTOR), ROOT_DIR_SECTOR)
    ensures d == null ==> v.St() == old(v.St())
  {
    ghost var st0 := v.St();
    var inode := v.Open(ROOT_DIR_SECTOR);
    if inode.Some? {
      EntryOpened(st0, ROOT_DIR_SECTOR, ROOT_DIR_SECTOR, DOT, ROOT_DIR_SECTOR);
    }
    d := DirOpen(v, inode);
    if inode.Some? && d == null {
      OpenClose(st0, ROOT_DIR_SECTOR);
    }
  }

  /** dir_reopen: a second handle on d's inode. */
  method DirReopen(v: Volume, d: Dir) returns (d': Dir?)
    requires v.Valid() && d.inode in v.opens
    modifies v
    ensures v.Valid()
    ensures d' != null <==> EntryR(old(v.St()), d.inode, DOT) >= 0
    ensures d' != null ==> && fresh(d') && d'.inode == d.inode && d'.pos == 0
                           && v.St() == Opened(EntryS(old(v.St()), d.inode, DOT, d.inode), d.inode)
    ensures d' == null ==> v.St() == old(v.St())
  {
    ghost var st0 := v.St();
    v.Reopen(d.inode);
    EntryOpened(st0, d.inode, d.inode, DOT, d.inode);
    d' := DirOpen(v, Some(d.inode));
    if d' == null {
      OpenClose(st0, d.inode);
    }
  }

  // ---------------------------------------------------------------------
  // dir_lookup

  /** dir_lookup: an inode opened for the sector the entry named name
      points to; none when there is no such entry. */
  method DirLookup(v: Volume, d: Dir, name: seq<byte>) returns (inode: Option<Sector>)
    requires v.Valid() && d.inode in v.opens
    modifies v
    ensures v.Valid()
    ensures var t := Target(old(v.files[d.inode]), name);
      && (t.Some? && t.value in old(v.files) ==> inode == t && v.St() == Opened(old(v.St()), t.value))
      && (t.None? || t.value !in old(v.files) ==> inode == None && v.St() == old(v.St()))
  {
    var found, e, _ := Lookup(v.files[d.inode], name);
    if found {
      inode := v.Open(e.sector);
    } else {
      inode := None;
    }
  }

  // ---------------------------------------------------------------------
  // dir_add and dir_create

  /** The ".." link of dir_add for a new subdirectory: the child is
      opened as a directory, linked to its father and closed again. */
  method LinkChild(v: Volume, d: Dir, sector: Sector) returns (ok: bool)
    requires v.Valid() && d.inode in v.opens && sector < SECTOR_LIMIT && sector != d.inode
    modifies v
    ensures v.Valid()
    ensures ok == LinkR(old(v.St()), d.inode, sector) && v.St() == LinkS(old(v.St()), d.inode, sector)
  {
    ghost var st0 := v.St();
    var inode := v.Open(sector);
    if inode.Some? {
      EntryOpened(st0, sector, sector, DOT, sector);
    }
    var child := DirOpen(v, inode);
    if child == null {
      if inode.Some? {
        OpenClose(st0, sector);
      }
      var _ := AddFather(v, d, child);
      DirClose(v, child);
      return false;
    }
    ghost var y := EntryS(st0, sector, DOT, sector);
    EntryOk(st0, sector, DOT, sector);
    FatherOpened(y, sector, d.inode, sector);
    FatherOk(y, d.inode, sector);
    var r := AddFather(v, d, child);
    ok := r > 0;
    DirClose(v, child);
    OpenClose(FatherS(y, d.inode, sector), sector);
  }

  /** dir_add: for a subdirectory first the ".." link (failing when the
      child has one already), then the entry name for sector. */
  method DirAdd(v: Volume, d: Dir, name: seq<byte>, sector: Sector, isDir: bool) returns (ok: bool)
    requires v.Valid() && d.inode in v.opens && CStr(name) && sector < SECTOR_LIMIT && sector != d.inode
    modifies v
    ensures v.Valid()
    ensures ok == DirAddR(old(v.St()), d.inode, name, sector, isDir)
    ensures v.St() == DirAddS(old(v.St()), d.inode, name, sector, isDir)
  {
    if isDir {
      ok := LinkChild(v, d, sector);
      if !ok {
        return false;
      }
    }
    var r := AddEntry(v, d.inode, name, sector);
    ok := r > 0;
  }

  /** A directory of zeros has its first slot free. */
  lemma ZerosFree(n: nat)
    ensures FreeSlot(Zeros(n), 0) == 0
  {
    ZerosOk(n);
    var z := Zeros(n);
    if InDir(z, 0) {
      assert !Named(z, 0, Slot(z, 0).name);
    }
  }

  /** dir_create: a directory inode of entryCnt free slots at sector,
      opened, given its "." and closed: on success it lists nothing and
      "." leads to itself. */
  method DirCreate(v: Volume, sector: Sector, entryCnt: nat) returns (ok: bool)
    requires v.Valid() && sector < SECTOR_LIMIT && sector !in v.files && sector !in v.free
    modifies v
    ensures v.Valid()
    ensures ok == (old(v.room) && ENTRY_SIZE * entryCnt <= MAX_LENGTH)
    ensures ok ==> v.St() == old(v.St()).(files := old(v.files)[sector := Add(Zeros(ENTRY_SIZE * entryCnt), DOT, sector)],
                                          dirs := old(v.dirs) + {sector})
    ensures !ok ==> v.St() == old(v.St())
  {
    var made := v.Create(sector, ENTRY_SIZE * entryCnt, true);
    if !made {
      return false;
    }
    ghost var st0 := v.St();
    ZerosOk(ENTRY_SIZE * entryCnt);
    ZerosFree(ENTRY_SIZE * entryCnt);
    AddHolds(Zeros(ENTRY_SIZE * entryCnt), DOT, sector);
    assert EntryR(st0, sector, DOT) == 1;
    ghost var st1 := EntryS(st0, sector, DOT, sector);
    ghost var c1 := Add(Zeros(ENTRY_SIZE * entryCnt), DOT, sector);
    assert st1.files == old(v.files)[sector := c1];
    EntryOk(st0, sector, DOT, sector);
    assert EntryR(st1, sector, DOT) == 0;
    var inode := v.Open(sector);
    EntryOpened(st0, sector, sector, DOT, sector);
    var d := DirOpen(v, inode);
    EntryOpened(st1, sector, sector, DOT, sector);
    EntrySame(Opened(st1, sector), sector, DOT, sector);
    var r := AddSelf(v, d);
    ok := r >= 0;
    DirClose(v, d);
    OpenClose(st1, sector);
  }

  // ---------------------------------------------------------------------
  // dir_remove

  /** The test dir_remove makes before it removes the directory at t: the
      directory opens (it has or takes a ".") and is empty. */
  ghost predicate EmptyR(st: State, t: Sector)
    requires t in st.files
  {
    EntryR(st, t, DOT) >= 0 && Empty(st.files[t])
  }

  /** Whether dir_remove removes name from the directory at f: the entry
      is there, its inode exists, a directory passes the test above, and
      the erased slot, which lies inside the file, can be written. */
  ghost predicate RemoveR(st: State, f: Sector, name: seq<byte>)
    requires f in st.files
  {
    var t := Target(st.files[f], name);
    && t.Some? && t.value in st.files
    && (t.value in st.dirs ==> EmptyR(st, t.value))
    && f !in st.denied
  }

  /** The state after the test: a directory tested may have taken its ".". */
  ghost function CheckS(st: State, t: Sector): (st': State)
    requires t in st.files && t < SECTOR_LIMIT
    ensures st' == st.(files := st'.files)
    ensures forall s :: s in st'.files <==> s in st.files
  {
    if t in st.dirs then EntryS(st, t, DOT, t) else st
  }

  /** The slot k of the directory at f erased and the inode at t marked
      removed, which frees it at once when nobody else has it open. */
  ghost function UnlinkS(st: State, f: Sector, k: nat, t: Sector): State
    requires f in st.files && InDir(st.files[f], k)
  {
    var st2 := st.(files := st.files[f := Erase(st.files[f], k)]);
    if t in st.opens then st2.(removed := st2.removed + {t})
    else st2.(files := st2.files - {t}, dirs := st2.dirs - {t}, free := st2.free + {t})
  }

  /** The state dir_remove leaves. */
  ghost function RemoveS(st: State, f: Sector, name: seq<byte>): State
    requires f in st.files
  {
    var c := st.files[f];
    var t := Target(c, name);
    if t.None? || t.value !in st.files then st
    else if !RemoveR(st, f, name) then CheckS(st, t.value)
    else
      var k := Find(c, name, 0).value;
      CheckKeepsNamed(st, t.value, f, k, name);
      UnlinkS(CheckS(st, t.value), f, k, t.value)
  }

  /** The test keeps every slot in use as it was. */
  lemma CheckKeepsNamed(st: State, t: Sector, f: Sector, k: nat, x: seq<byte>)
    requires t in st.files && t < SECTOR_LIMIT && f in st.files && Named(st.files[f], k, x)
    ensures var c' := CheckS(st, t).files[f]; Named(c', k, x) && Slot(c', k) == Slot(st.files[f], k)
  {
    if t in st.dirs {
      EntryKeepsNamed(st, t, DOT, t, f, k, x);
    }
  }

  /** Removing an inode one has opened and closing it again: it stays
      removed while others have it open, and is freed otherwise. */
  lemma RemoveClose(st: State, t: Sector)
    requires Ok(st) && t in st.files
    ensures var st' := Opened(st, t).(removed := st.removed + {t});
      Closed(st', t) == if t in st.opens then st.(removed := st.removed + {t})
                        else st.(files := st.files - {t}, dirs := st.dirs - {t}, free := st.free + {t})
  {
    if t in st.opens {
      assert st.opens[t := st.opens[t] + 1][t := st.opens[t]] == st.opens;
    } else {
      assert st.opens[t := 1] - {t} == st.opens;
      assert st.removed + {t} - {t} == st.removed;
    }
  }

  /** dir_remove leaves every open count as it was. */
  lemma RemoveOpens(st: State, f: Sector, name: seq<byte>)
    requires f in st.files
    ensures RemoveS(st, f, name).opens == st.opens
  {
  }

  /** On success dir_remove has dropped name from the directory at f. */
  lemma RemoveGone(st: State, f: Sector, name: seq<byte>)
    requires Ok(st) && f in st.dirs && f in st.opens && RemoveR(st, f, name)
    ensures var st' := RemoveS(st, f, name); f in st'.files && !Holds(st'.files[f], name)
  {
    var c := st.files[f];
    var t := Target(c, name).value;
    var k := Find(c, name, 0).value;
    var st1 := CheckS(st, t);
    assert DirOk(st1.files[f]) by {
      if t in st.dirs {
        EntryOk(st, t, DOT, t);
      }
    }
    CheckKeepsNamed(st, t, f, k, name);
    var c' := Erase(st1.files[f], k);
    EraseGone(st1.files[f], k, name);
    assert RemoveS(st, f, name) == UnlinkS(st1, f, k, t);
    assert UnlinkS(st1, f, k, t).files[f] == c';
  }

  /** dir_remove keeps the target of every other name in the directory
      at f (and of "." too unless the entry removed is f itself). */
  lemma RemoveKeeps(st: State, f: Sector, name: seq<byte>, x: seq<byte>)
    requires Ok(st) && f in st.opens && x != name
    ensures var st', t := RemoveS(st, f, name), Target(st.files[f], name);
      t.Some? && (x != DOT || t.value != f) && f in st'.files ==> Target(st'.files[f], x) == Target(st.files[f], x)
  {
    var c := st.files[f];
    var t := Target(c, name);
    if t.Some? && t.value in st.files {
      var st1 := CheckS(st, t.value);
      if t.value in st.dirs && (x != DOT || t.value != f) {
        EntryAdds(st, t.value, DOT, t.value, x);
      }
      if RemoveR(st, f, name) {
        var k := Find(c, name, 0).value;
        CheckKeepsNamed(st, t.value, f, k, name);
        TargetEraseOther(st1.files[f], k, name, x);
      }
    }
  }

  /** On success the inode of the entry is marked removed while others
      have it open, and freed otherwise. */
  lemma RemoveFrees(st: State, f: Sector, name: seq<byte>)
    requires Ok(st) && f in st.opens && RemoveR(st, f, name)
    ensures var st', t := RemoveS(st, f, name), Target(st.files[f], name).value;
      && (t in st.opens ==> t in st'.files && t in st'.removed)
      && (t !in st.opens ==> t !in st'.files && t in st'.free)
  {
  }

  /** The test of dir_remove, corrected to open the directory on a
      reference of its own (inode_reopen) so that closing it leaves the
      caller's reference alone. */
  method EmptyCheck(v: Volume, t: Sector) returns (empty: bool)
    requires v.Valid() && t in v.opens
    modifies v
    ensures v.Valid()
    ensures empty == EmptyR(old(v.St()), t) && v.St() == EntryS(old(v.St()), t, DOT, t)
  {
    ghost var st0 := v.St();
    v.Reopen(t);
    EntryOpened(st0, t, t, DOT, t);
    var child := DirOpen(v, Some(t));
    empty := false;
    if child == null {
      OpenClose(st0, t);
      EntrySame(st0, t, DOT, t);
      return;
    }
    SelfedEmpty(st0.files[t], t);
    assert v.files[t] == Selfed(st0.files[t], t);
    empty := IsEmpty(v.files[t]);
    EntryOk(st0, t, DOT, t);
    DirClose(v, child);
    OpenClose(EntryS(st0, t, DOT, t), t);
  }

  /** The last steps of dir_remove on the directory at d, which holds
      name in slot k: the slot is erased, and the inode at t, which the
      caller opened, is removed and closed. */
  method Unlink(v: Volume, d: Dir, ghost name: seq<byte>, ghost k: nat, ofs: nat, t: Sector, ghost y: State)
    returns (ok: bool)
    requires v.Valid() && Ok(y) && v.St() == Opened(y, t) && t in y.files && d.inode in y.opens
    requires Named(y.files[d.inode], k, name) && ofs == ENTRY_SIZE * k
    modifies v
    ensures v.Valid()
    ensures ok == (d.inode !in y.denied) && v.St() == if ok then UnlinkS(y, d.inode, k, t) else y
  {
    var c1 := v.files[d.inode];
    if d.inode in v.dirs {
      EraseGone(c1, k, name);
    }
    var n := v.Write(d.inode, c1[ofs .. ofs + ENTRY_SIZE - 1] + [0], ofs);
    if n != ENTRY_SIZE {
      v.Close(Some(t));
      OpenClose(y, t);
      return false;
    }
    ghost var w := y.(files := y.files[d.inode := Erase(c1, k)]);
    assert v.St() == Opened(w, t);
    v.Remove(t);
    v.Close(Some(t));
    RemoveClose(w, t);
    return true;
  }

  /** dir_remove, corrected as in EmptyCheck: the entry named name is
      erased and its inode removed, unless there is no such entry, no such
      inode, the inode is a directory that is not empty, or the slot
      cannot be written. */
  method DirRemove(v: Volume, d: Dir, name: seq<byte>) returns (ok: bool)
    requires v.Valid() && d.inode in v.opens
    modifies v
    ensures v.Valid()
    ensures ok == RemoveR(old(v.St()), d.inode, name) && v.St() == RemoveS(old(v.St()), d.inode, name)
  {
    ghost var st0 := v.St();
    var c := v.files[d.inode];
    var found, e, ofs := Lookup(c, name);
    if !found {
      return false;
    }
    ghost var k := Find(c, name, 0).value;
    var inode := v.Open(e.sector);
    if inode.None? {
      v.Close(inode);
      return false;
    }
    ok := RemoveOpened(v, d, name, k, ofs, inode.value, st0);
  }

  /** The rest of dir_remove once the inode at t of the entry in slot k
      is open: a directory is tested for emptiness, then the slot is
      erased. */
  method RemoveOpened(v: Volume, d: Dir, ghost name: seq<byte>, ghost k: nat, ofs: nat, t: Sector, ghost st0: State)
    returns (ok: bool)
    requires Ok(st0) && t in st0.files && d.inode in st0.opens
    requires v.Valid() && v.St() == Opened(st0, t)
    requires Named(st0.files[d.inode], k, name) && ofs == ENTRY_SIZE * k
    requires Target(st0.files[d.inode], name) == Some(t) && Find(st0.files[d.inode], name, 0) == Some(k)
    modifies v
    ensures v.Valid()
    ensures ok == RemoveR(st0, d.inode, name) && v.St() == RemoveS(st0, d.inode, name)
  {
    ghost var y := CheckS(st0, t);
    if t in v.dirs {
      EntryOpened(st0, t, t, DOT, t);
      EntryOk(st0, t, DOT, t);
      var empty := EmptyCheck(v, t);
      if !empty {
        v.Close(Some(t));
        OpenClose(y, t);
        return false;
      }
    }
    CheckKeepsNamed(st0, t, d.inode, k, name);
    ok := Unlink(v, d, name, k, ofs, t, y);
  }

  // ---------------------------------------------------------------------
  // dir_remove as written

  /** dir_remove as written, directory.c lines 282-306: the directory is
      tested through dir_open of the very reference inode_open gave, so
      dir_close gives that reference up, and inode_remove and inode_close
      then act on a reference the code no longer holds. lost says the
      code has come to such a step: the reference it gave up was the last
      one, so the inode is off the open list (freed, if removed), or
      dir_open failed and closed it, and dir_is_empty reads a null
      directory. Up to that point it does what DirRemove does; for a
      directory others have open, it takes one of their references. */
  method DirRemoveAsWritten(v: Volume, d: Dir, name: seq<byte>) returns (ok: bool, lost: bool)
    requires v.Valid() && d.inode in v.opens
    modifies v
    ensures v.Valid()
    ensures var st0, t := old(v.St()), Target(old(v.files[d.inode]), name);
      && (t.None? || t.value !in st0.dirs ==> !lost && ok == RemoveR(st0, d.inode, name) && v.St() == RemoveS(st0, d.inode, name))
      && (t.Some? && t.value in st0.dirs ==> lost == (Count(st0, t.value) == 0 || EntryR(st0, t.value, DOT) < 0))
      && (t.Some? && t.value in st0.dirs && !lost ==> Count(v.St(), t.value) == Count(st0, t.value) - 1)
  {
    ghost var st0 := v.St();
    var c := v.files[d.inode];
    var found, e, ofs := Lookup(c, name);
    if !found {
      return false, false;
    }
    ghost var k := Find(c, name, 0).value;
    var inode := v.Open(e.sector);
    if inode.None? {
      v.Close(inode);
      return false, false;
    }
    var t := inode.value;
    if t !in v.dirs {
      ok := RemoveOpened(v, d, name, k, ofs, t, st0);
      return ok, false;
    }
    ok, lost := RemoveDirAsWritten(v, d, name, k, ofs, t, st0);
  }

  /** dir_remove as written once the directory inode at t of the entry
      in slot k is open: dir_open takes over that reference and dir_close
      gives it up. */
  method RemoveDirAsWritten(v: Volume, d: Dir, ghost name: seq<byte>, ghost k: nat, ofs: nat, t: Sector, ghost st0: State)
    returns (ok: bool, lost: bool)
    requires Ok(st0) && t in st0.dirs && d.inode in st0.opens
    requires Named(st0.files[d.inode], k, name) && ofs == ENTRY_SIZE * k
    requires v.Valid() && v.St() == Opened(st0, t)
    modifies v
    ensures v.Valid()
    ensures lost == (Count(st0, t) == 0 || EntryR(st0, t, DOT) < 0)
    ensures !lost ==> Count(v.St(), t) == Count(st0, t) - 1
  {
    EntryOpened(st0, t, t, DOT, t);
    var child := DirOpen(v, Some(t));
    if child == null {
      return false, true;
    }
    var empty := IsEmpty(v.files[t]);
    DirClose(v, child);
    EntryOk(st0, t, DOT, t);
    OpenClose(EntryS(st0, t, DOT, t), t);
    if t !in v.opens {
      return false, true;
    }
    ok, lost := UnlinkAsWritten(v, d, name, k, ofs, t, empty, st0);
  }

  /** The steps of dir_remove as written after dir_close, while others
      still have the inode at t open: the directory, unless it was not
      empty, loses slot k and the inode is removed; either way one more
      inode_close follows. */
  method UnlinkAsWritten(v: Volume, d: Dir, ghost name: seq<byte>, ghost k: nat, ofs: nat, t: Sector, empty: bool,
                         ghost st0: State) returns (ok: bool, lost: bool)
    requires Ok(st0) && t in st0.dirs && d.inode in st0.opens && Count(st0, t) > 0
    requires Named(st0.files[d.inode], k, name) && ofs == ENTRY_SIZE * k
    requires v.Valid() && v.St() == EntryS(st0, t, DOT, t)
    modifies v
    ensures v.Valid() && !lost && Count(v.St(), t) == Count(st0, t) - 1
  {
    lost := false;
    if !empty {
      v.Close(Some(t));
      return false, false;
    }
    CheckKeepsNamed(st0, t, d.inode, k, name);
    var c1 := v.files[d.inode];
    if d.inode in v.dirs {
      EraseGone(c1, k, name);
    }
    var n := v.Write(d.inode, c1[ofs .. ofs + ENTRY_SIZE - 1] + [0], ofs);
    if n != ENTRY_SIZE {
      v.Close(Some(t));
      return false, false;
    }
    v.Remove(t);
    v.Close(Some(t));
    return true, false;
  }

  /** dir_readdir: the next name in the listing from d's position, which
      moves past every slot read. */
  method Readdir(v: Volume, d: Dir) returns (ok: bool, name: seq<byte>)
    requires d.inode in v.files
    modifies d
    ensures d.pos >= old(d.pos) && (d.pos - old(d.pos)) % ENTRY_SIZE == 0
    ensures ok ==> Listing(v.files[d.inode], old(d.pos)) == [name] + Listing(v.files[d.inode], d.pos)
    ensures !ok ==> Listing(v.files[d.inode], old(d.pos)) == [] && !Full(v.files[d.inode], d.pos)
  {
    ok, name, d.pos := NextEntry(v.files[d.inode], d.pos);
  }
}
