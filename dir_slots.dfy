/** The slot format of a directory (filesys/directory.c): a directory is
    the content of its inode, a run of 20-byte struct dir_entry slots,
    each a little-endian 4-byte header sector, a 15-byte NUL-terminated
    name field and an in_use byte. The scans here take the directory's
    content as it stands and read it as inode_read_at would. */
module DirSlots {
  import opened Bytes
  import opened Block
  import opened Wrappers
  import InodeData

  /** NAME_MAX (filesys/directory.h): the longest file name. */
  const NAME_MAX: nat := 14
  /** sizeof (struct dir_entry) */
  const ENTRY_SIZE: nat := 20
  /** The width of the name field, NAME_MAX + 1. */
  const NAME_FIELD: nat := 15

  const DOT: seq<byte> := [46]
  const DOTDOT: seq<byte> := [46, 46]

  /** A decoded slot. */
  datatype Entry = Entry(sector: Sector, name: seq<byte>, inUse: bool)

  /** The bytes of a C string: no NUL among them. */
  predicate CStr(s: seq<byte>)
  {
    forall i :: 0 <= i < |s| ==> s[i] != 0
  }

  /** The names dir_add_entry accepts: not empty and at most NAME_MAX long. */
  predicate ValidName(name: seq<byte>)
  {
    0 < |name| <= NAME_MAX
  }

  /** "." and "..", which readdir and dir_is_empty pass over. */
  predicate IsLink(name: seq<byte>)
  {
    name == DOT || name == DOTDOT
  }

  // ---------------------------------------------------------------------
  // The entry format

  /** The string held in a name field: its bytes before the first NUL
      (all of them when there is none). */
  function CString(f: seq<byte>): (s: seq<byte>)
    ensures |s| <= |f| && s == f[..|s|] && CStr(s)
    ensures |s| < |f| ==> f[|s|] == 0
  {
    if f == [] || f[0] == 0 then [] else [f[0]] + CString(f[1..])
  }

  /** A name followed by a NUL reads back as that name. */
  lemma {:induction false} CStringOf(name: seq<byte>, pad: seq<byte>)
    requires CStr(name) && pad != [] && pad[0] == 0
    ensures CString(name + pad) == name
  {
    if name != [] {
      assert (name + pad)[1..] == name[1..] + pad;
      CStringOf(name[1..], pad);
    }
  }

  function LE32(b: seq<byte>): (x: nat)
    requires |b| == 4
    ensures x < 0x1_0000_0000
  {
    b[0] as nat + 256 * b[1] as nat + 65536 * b[2] as nat + 16777216 * b[3] as nat
  }

  /** A block_sector_t as the four bytes it occupies on x86. */
  function U32Bytes(x: nat): (b: seq<byte>)
    requires x < 0x1_0000_0000
    ensures |b| == 4 && LE32(b) == x
  {
    var q1 := x / 256;
    var q2 := q1 / 256;
    var q3 := q2 / 256;
    [(x % 256) as byte, (q1 % 256) as byte, (q2 % 256) as byte, q3 as byte]
  }

  function Decode(b: seq<byte>): (e: Entry)
    requires |b| == ENTRY_SIZE
  {
    Entry(LE32(b[..4]), CString(b[4..4 + NAME_FIELD]), b[4 + NAME_FIELD] != 0)
  }

  /** The slot dir_add_entry writes: in use, the name, the sector. */
  function Encode(sector: Sector, name: seq<byte>): (b: seq<byte>)
    requires sector < 0x1_0000_0000 && CStr(name) && |name| <= NAME_MAX
    ensures |b| == ENTRY_SIZE && Decode(b) == Entry(sector, name, true)
  {
    var sb := U32Bytes(sector);
    var f := name + Zeros(NAME_FIELD - |name|);
    var b := sb + f + [1];
    assert b[..4] == sb && b[4..4 + NAME_FIELD] == f && b[4 + NAME_FIELD] == 1;
    CStringOf(name, Zeros(NAME_FIELD - |name|));
    b
  }

  // ---------------------------------------------------------------------
  // Slots

  /** How inode_read_at answers a read of size bytes at ofs from a file
      with content c. */
  function Read(c: seq<byte>, size: int, ofs: nat): (r: seq<byte>)
    ensures |r| == InodeData.ReadCount(|c|, size, ofs)
    ensures |r| > 0 ==> r == c[ofs .. ofs + |r|]
  {
    var n := InodeData.ReadCount(|c|, size, ofs);
    if n == 0 then [] else c[ofs .. ofs + n]
  }

  /** A whole slot can be read at byte ofs. */
  predicate Full(c: seq<byte>, ofs: nat)
  {
    ofs + ENTRY_SIZE <= |c|
  }

  function EntryAt(c: seq<byte>, ofs: nat): Entry
    requires Full(c, ofs)
  {
    Decode(c[ofs .. ofs + ENTRY_SIZE])
  }

  /** Slot k lies inside the directory. */
  predicate InDir(c: seq<byte>, k: nat)
  {
    Full(c, ENTRY_SIZE * k)
  }

  function Slot(c: seq<byte>, k: nat): Entry
    requires InDir(c, k)
  {
    EntryAt(c, ENTRY_SIZE * k)
  }

  /** Slot k is in use under name. */
  predicate Named(c: seq<byte>, k: nat, name: seq<byte>)
  {
    InDir(c, k) && Slot(c, k).inUse && Slot(c, k).name == name
  }

  ghost predicate Holds(c: seq<byte>, name: seq<byte>)
  {
    exists k: nat :: Named(c, k, name)
  }

  /** What every directory keeps: the names in use are valid and no two
      slots in use share one. */
  ghost predicate DirOk(c: seq<byte>)
  {
    && (forall k: nat :: InDir(c, k) && Slot(c, k).inUse ==> ValidName(Slot(c, k).name))
    && (forall i: nat, j: nat :: InDir(c, i) && InDir(c, j) && i != j && Slot(c, i).inUse && Slot(c, j).inUse
          ==> Slot(c, i).name != Slot(c, j).name)
  }

  // ---------------------------------------------------------------------
  // lookup

  /** The first slot from k in use under name. */
  function Find(c: seq<byte>, name: seq<byte>, k: nat): (r: Option<nat>)
    decreases |c| - ENTRY_SIZE * k
    ensures r.Some? ==> k <= r.value && Named(c, r.value, name)
    ensures r.Some? ==> forall i :: k <= i < r.value ==> !Named(c, i, name)
    ensures r.None? ==> forall i :: k <= i ==> !Named(c, i, name)
  {
    if !InDir(c, k) then None
    else if Named(c, k, name) then Some(k)
    else Find(c, name, k + 1)
  }

  /** Find from the first slot finds exactly the names held. */
  lemma FindHolds(c: seq<byte>, name: seq<byte>)
    ensures Find(c, name, 0).Some? <==> Holds(c, name)
  {
    var r := Find(c, name, 0);
    if r.Some? {
      assert Named(c, r.value, name);
    }
  }

  /** lookup: scan the slots from offset 0 while whole slots can be
      read, and stop at the first one in use under name. */
  method Lookup(c: seq<byte>, name: seq<byte>) returns (found: bool, e: Entry, ofs: nat)
    ensures found == Find(c, name, 0).Some?
    ensures found ==> ofs == ENTRY_SIZE * Find(c, name, 0).value && Full(c, ofs) && e == EntryAt(c, ofs)
  {
    ofs := 0;
    ghost var k: nat := 0;
    var b := Read(c, ENTRY_SIZE, ofs);
    while |b| == ENTRY_SIZE
      invariant ofs == ENTRY_SIZE * k && Find(c, name, k) == Find(c, name, 0)
      invariant b == Read(c, ENTRY_SIZE, ofs)
      decreases |c| - ofs
    {
      e := Decode(b);
      if e.inUse && e.name == name {
        return true, e, ofs;
      }
      ofs, k := ofs + ENTRY_SIZE, k + 1;
      b := Read(c, ENTRY_SIZE, ofs);
    }
    return false, Entry(0, [], false), ofs;
  }

  // ---------------------------------------------------------------------
  // lookup_and_offset

  /** The first slot from k that is free or not whole: where a new entry
      goes, the end of the file when every slot is in use. */
  function FreeSlot(c: seq<byte>, k: nat): (j: nat)
    requires ENTRY_SIZE * k <= |c|
    decreases |c| - ENTRY_SIZE * k
    ensures k <= j && ENTRY_SIZE * j <= |c|
    ensures !InDir(c, j) || !Slot(c, j).inUse
    ensures forall i :: k <= i < j ==> InDir(c, i) && Slot(c, i).inUse
  {
    if !InDir(c, k) || !Slot(c, k).inUse then k else FreeSlot(c, k + 1)
  }

  /** lookup_and_offset: -1 when name is held, else the offset of the
      first free slot, or of the end of the last whole slot. */
  method LookupAndOffset(c: seq<byte>, name: seq<byte>) returns (ofs: int)
    ensures Holds(c, name) ==> ofs == -1
    ensures !Holds(c, name) ==> ofs == ENTRY_SIZE * FreeSlot(c, 0)
  {
    FindHolds(c, name);
    var found, _, _ := Lookup(c, name);
    if found {
      return -1;
    }
    var at: nat := 0;
    ghost var k: nat := 0;
    var b := Read(c, ENTRY_SIZE, at);
    while |b| == ENTRY_SIZE
      invariant at == ENTRY_SIZE * k && at <= |c| && FreeSlot(c, k) == FreeSlot(c, 0)
      invariant b == Read(c, ENTRY_SIZE, at)
      decreases |c| - at
    {
      if !Decode(b).inUse {
        break;
      }
      at, k := at + ENTRY_SIZE, k + 1;
      b := Read(c, ENTRY_SIZE, at);
    }
    return at;
  }

  // ---------------------------------------------------------------------
  // Writing a slot

  /** The directory after an entry for name is written in its free slot,
      as dir_add_entry does. */
  function Add(c: seq<byte>, name: seq<byte>, sector: Sector): (c': seq<byte>)
    requires sector < 0x1_0000_0000 && CStr(name) && |name| <= NAME_MAX
  {
    InodeData.Written(c, ENTRY_SIZE * FreeSlot(c, 0), Encode(sector, name))
  }

  /** The directory after slot k is written back with in_use cleared, as
      dir_remove does. */
  function Erase(c: seq<byte>, k: nat): (c': seq<byte>)
    requires InDir(c, k)
  {
    var ofs := ENTRY_SIZE * k;
    InodeData.Written(c, ofs, c[ofs .. ofs + ENTRY_SIZE - 1] + [0])
  }

  /** Writing a slot's 20 bytes at slot k (inside the file or right at
      the end of its last whole slot) changes slot k alone. */
  lemma {:induction false} SlotWritten(c: seq<byte>, k: nat, b: seq<byte>)
    requires ENTRY_SIZE * k <= |c| && |b| == ENTRY_SIZE
    ensures var c' := InodeData.Written(c, ENTRY_SIZE * k, b);
      && InDir(c', k) && Slot(c', k) == Decode(b)
      && (forall j: nat :: j != k ==> (InDir(c', j) <==> InDir(c, j)))
      && (forall j: nat :: j != k && InDir(c, j) ==> Slot(c', j) == Slot(c, j))
  {
    var ofs := ENTRY_SIZE * k;
    var c' := InodeData.Written(c, ofs, b);
    InodeData.WrittenBytes(c, ofs, b);
    assert c'[ofs .. ofs + ENTRY_SIZE] == b;
    forall j: nat | j != k && InDir(c, j)
      ensures InDir(c', j) && Slot(c', j) == Slot(c, j)
    {
      var lo := ENTRY_SIZE * j;
      assert lo + ENTRY_SIZE <= ofs || ofs + ENTRY_SIZE <= lo;
      assert c'[lo .. lo + ENTRY_SIZE] == c[lo .. lo + ENTRY_SIZE];
    }
  }

  /** After Add: the free slot holds the new entry; the other slots are
      as they were. */
  lemma AddSlots(c: seq<byte>, name: seq<byte>, sector: Sector)
    requires sector < 0x1_0000_0000 && CStr(name) && |name| <= NAME_MAX
    ensures var c', k := Add(c, name, sector), FreeSlot(c, 0);
      && InDir(c', k) && Slot(c', k) == Entry(sector, name, true)
      && (forall j: nat :: j != k ==> (InDir(c', j) <==> InDir(c, j)))
      && (forall j: nat :: j != k && InDir(c, j) ==> Slot(c', j) == Slot(c, j))
  {
    SlotWritten(c, FreeSlot(c, 0), Encode(sector, name));
  }

  /** After Erase: slot k is free, with its name and sector kept; the
      other slots are as they were. */
  lemma EraseSlots(c: seq<byte>, k: nat)
    requires InDir(c, k)
    ensures var c' := Erase(c, k);
      && InDir(c', k) && Slot(c', k) == Slot(c, k).(inUse := false)
      && (forall j: nat :: j != k ==> (InDir(c', j) <==> InDir(c, j)))
      && (forall j: nat :: j != k && InDir(c, j) ==> Slot(c', j) == Slot(c, j))
  {
    var ofs := ENTRY_SIZE * k;
    var e := c[ofs .. ofs + ENTRY_SIZE];
    var b := c[ofs .. ofs + ENTRY_SIZE - 1] + [0];
    assert b == e[..ENTRY_SIZE - 1] + [0];
    SlotWritten(c, k, b);
    DecodeFreed(e);
  }

  /** Clearing a slot's in_use byte keeps its sector and name. */
  lemma DecodeFreed(e: seq<byte>)
    requires |e| == ENTRY_SIZE
    ensures Decode(e[..ENTRY_SIZE - 1] + [0]) == Decode(e).(inUse := false)
  {
    var b := e[..ENTRY_SIZE - 1] + [0];
    assert b[..4] == e[..4];
    assert b[4 .. 4 + NAME_FIELD] == e[4 .. 4 + NAME_FIELD];
  }

  /** Add holds exactly the names held before and the new one. */
  lemma AddHolds(c: seq<byte>, name: seq<byte>, sector: Sector)
    requires sector < 0x1_0000_0000 && CStr(name) && |name| <= NAME_MAX
    ensures forall x :: Holds(Add(c, name, sector), x) <==> Holds(c, x) || x == name
  {
    var c', k := Add(c, name, sector), FreeSlot(c, 0);
    AddSlots(c, name, sector);
    forall x
      ensures Holds(c', x) <==> Holds(c, x) || x == name
    {
      if Holds(c', x) {
        var j: nat :| Named(c', j, x);
        if j != k {
          assert Named(c, j, x);
        }
      }
      if Holds(c, x) {
        var j: nat :| Named(c, j, x);
        assert j != k;
        assert Named(c', j, x);
      }
      if x == name {
        assert Named(c', k, x);
      }
    }
  }

  /** A lookup of a name just added finds the slot it went into. */
  lemma AddFinds(c: seq<byte>, name: seq<byte>, sector: Sector)
    requires sector < 0x1_0000_0000 && CStr(name) && |name| <= NAME_MAX && !Holds(c, name)
    ensures var c', k := Add(c, name, sector), FreeSlot(c, 0);
      Find(c', name, 0) == Some(k) && Slot(c', k).sector == sector
  {
    var c', k := Add(c, name, sector), FreeSlot(c, 0);
    AddSlots(c, name, sector);
    assert Named(c', k, name);
    forall i | i < k
      ensures !Named(c', i, name)
    {
      assert !Named(c, i, name);
    }
  }

  /** Adding a valid name not yet held keeps a directory well formed: in
      particular no two slots in use ever share a name. */
  lemma AddOk(c: seq<byte>, name: seq<byte>, sector: Sector)
    requires sector < 0x1_0000_0000 && CStr(name) && ValidName(name)
    requires DirOk(c) && !Holds(c, name)
    ensures DirOk(Add(c, name, sector))
  {
    var c', k := Add(c, name, sector), FreeSlot(c, 0);
    AddSlots(c, name, sector);
    forall i: nat, j: nat | InDir(c', i) && InDir(c', j) && i != j && Slot(c', i).inUse && Slot(c', j).inUse
      ensures Slot(c', i).name != Slot(c', j).name
    {
      if i == k {
        assert !Named(c, j, name);
      } else if j == k {
        assert !Named(c, i, name);
      }
    }
  }

  /** Erasing the slot of a name drops that name and no other, and keeps
      the directory well formed. */
  lemma EraseGone(c: seq<byte>, k: nat, name: seq<byte>)
    requires DirOk(c) && Named(c, k, name)
    ensures var c' := Erase(c, k);
      && DirOk(c') && !Holds(c', name)
      && forall x :: x != name ==> (Holds(c', x) <==> Holds(c, x))
  {
    var c' := Erase(c, k);
    EraseSlots(c, k);
    forall x | x != name
      ensures Holds(c', x) <==> Holds(c, x)
    {
      if Holds(c', x) {
        var j: nat :| Named(c', j, x);
        assert Named(c, j, x);
      }
      if Holds(c, x) {
        var j: nat :| Named(c, j, x);
        assert Named(c', j, x);
      }
    }
  }

  /** A directory of zeros, as inode_create leaves it, is well formed. */
  lemma ZerosOk(n: nat)
    ensures DirOk(Zeros(n)) && forall x :: !Holds(Zeros(n), x)
  {
    var z := Zeros(n);
    forall k: nat | InDir(z, k)
      ensures !Slot(z, k).inUse
    {
      assert z[ENTRY_SIZE * k .. ENTRY_SIZE * k + ENTRY_SIZE][4 + NAME_FIELD] == z[ENTRY_SIZE * k + 4 + NAME_FIELD];
    }
  }

  // ---------------------------------------------------------------------
  // dir_is_empty

  /** No slot in use other than "." and "..". */
  ghost predicate Empty(c: seq<byte>)
  {
    forall k: nat :: InDir(c, k) && Slot(c, k).inUse ==> IsLink(Slot(c, k).name)
  }

  /** dir_is_empty: scan every whole slot for one in use that is not "."
      or "..". */
  method IsEmpty(c: seq<byte>) returns (empty: bool)
    ensures empty == Empty(c)
  {
    var ofs: nat := 0;
    ghost var k: nat := 0;
    var b := Read(c, ENTRY_SIZE, ofs);
    while |b| == ENTRY_SIZE
      invariant ofs == ENTRY_SIZE * k && b == Read(c, ENTRY_SIZE, ofs)
      invariant forall i: nat :: i < k ==> InDir(c, i) && (Slot(c, i).inUse ==> IsLink(Slot(c, i).name))
      decreases |c| - ofs
    {
      var e := Decode(b);
      if e.inUse && !(e.name == DOT || e.name == DOTDOT) {
        assert !IsLink(Slot(c, k).name);
        return false;
      }
      ofs, k := ofs + ENTRY_SIZE, k + 1;
      b := Read(c, ENTRY_SIZE, ofs);
    }
    return true;
  }

  // ---------------------------------------------------------------------
  // dir_readdir

  /** An entry readdir reports: in use and neither "." nor "..". */
  predicate Shown(e: Entry)
  {
    e.inUse && !IsLink(e.name)
  }

  /** strlcpy (name, e.name, NAME_MAX + 1): at most NAME_MAX bytes. */
  function Copied(name: seq<byte>): (r: seq<byte>)
    ensures |name| <= NAME_MAX ==> r == name
  {
    if |name| <= NAME_MAX then name else name[..NAME_MAX]
  }

  /** The names successive readdir calls report from byte pos on, in
      slot order. */
  function Listing(c: seq<byte>, pos: nat): seq<seq<byte>>
    decreases |c| - pos
  {
    if !Full(c, pos) then []
    else (if Shown(EntryAt(c, pos)) then [Copied(EntryAt(c, pos).name)] else []) + Listing(c, pos + ENTRY_SIZE)
  }

  /** The loop of dir_readdir from position pos: the next name reported
      and the position after its slot, or false with the position where
      no whole slot is left. */
  method NextEntry(c: seq<byte>, pos: nat) returns (found: bool, name: seq<byte>, pos': nat)
    ensures pos <= pos' && (pos' - pos) % ENTRY_SIZE == 0
    ensures found ==> Listing(c, pos) == [name] + Listing(c, pos')
    ensures !found ==> Listing(c, pos) == [] && !Full(c, pos')
  {
    pos' := pos;
    ghost var m: nat := 0;
    var b := Read(c, ENTRY_SIZE, pos');
    while |b| == ENTRY_SIZE
      invariant pos' == pos + ENTRY_SIZE * m && Listing(c, pos') == Listing(c, pos)
      invariant b == Read(c, ENTRY_SIZE, pos')
      decreases |c| - pos'
    {
      var e := Decode(b);
      pos', m := pos' + ENTRY_SIZE, m + 1;
      if e.inUse && !(e.name == DOTDOT || e.name == DOT) {
        return true, Copied(e.name), pos';
      }
      b := Read(c, ENTRY_SIZE, pos');
    }
    return false, [], pos';
  }

  /** Shown slot k carries the name x. */
  predicate ShownAs(c: seq<byte>, k: nat, x: seq<byte>)
  {
    InDir(c, k) && Shown(Slot(c, k)) && Copied(Slot(c, k).name) == x
  }

  /** The listing from slot k0 holds exactly the copied names of the
      shown slots from k0 on. */
  lemma {:induction false} ListingFrom(c: seq<byte>, k0: nat, x: seq<byte>)
    decreases |c| - ENTRY_SIZE * k0
    ensures x in Listing(c, ENTRY_SIZE * k0) <==> exists k: nat :: k0 <= k && ShownAs(c, k, x)
  {
    if InDir(c, k0) {
      ListingFrom(c, k0 + 1, x);
      var e := Slot(c, k0);
      var head := if Shown(e) then [Copied(e.name)] else [];
      var tail := Listing(c, ENTRY_SIZE * (k0 + 1));
      assert ENTRY_SIZE * k0 + ENTRY_SIZE == ENTRY_SIZE * (k0 + 1);
      assert Listing(c, ENTRY_SIZE * k0) == head + tail;
      if x in head {
        assert ShownAs(c, k0, x);
      }
      if exists k: nat :: k0 <= k && ShownAs(c, k, x) {
        var k: nat :| k0 <= k && ShownAs(c, k, x);
        if k == k0 {
          assert x in head;
        } else {
          assert x in tail;
        }
      }
    } else {
      forall k: nat | k0 <= k
        ensures !InDir(c, k)
      {
      }
    }
  }

  /** A directory is empty exactly when readdir reports nothing from it. */
  lemma EmptyListing(c: seq<byte>)
    ensures Empty(c) <==> Listing(c, 0) == []
  {
    if Listing(c, 0) != [] {
      ListingFrom(c, 0, Listing(c, 0)[0]);
    }
    if !Empty(c) {
      var k: nat :| InDir(c, k) && Slot(c, k).inUse && !IsLink(Slot(c, k).name);
      ListingFrom(c, 0, Copied(Slot(c, k).name));
      assert ShownAs(c, k, Copied(Slot(c, k).name));
    }
  }

  /** In a well formed directory every name readdir reports is neither
      "." nor "..", and a lookup of it succeeds. */
  lemma ListedFound(c: seq<byte>, x: seq<byte>)
    requires DirOk(c) && x in Listing(c, 0)
    ensures !IsLink(x) && Find(c, x, 0).Some?
  {
    ListingFrom(c, 0, x);
    var k: nat :| ShownAs(c, k, x);
    assert Named(c, k, x);
  }
}
