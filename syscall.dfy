/** The parts of the system-call layer of project 3 (userprog/syscall.c)
    that own virtual-memory state: a process's open-file table, its memory
    mappings (mmap, munmap) and the user-pointer checks that page in the
    memory they validate. */
module Syscall {
  import opened Wrappers
  import opened Bytes
  import opened Swap
  import opened Vm

  /** check_valid_ptr rejects addresses below the start of the user image. */
  const USER_BOTTOM: nat := 0x0804_8000

  /** file_list_elem: a descriptor and its file. */
  datatype FileElem = FileElem(fd: int, file: Handle)

  /** mmap_entry_t: a mapping id, its base address, its private file
      handle and its page count. */
  datatype MmapEntry = MmapEntry(id: int, addr: Addr, file: Handle, pageCount: nat)

  /** The first open file with descriptor fd. */
  function FindFd(files: seq<FileElem>, fd: int): (r: Option<nat>)
    ensures r.Some? ==> (r.value < |files| && files[r.value].fd == fd
      && forall j :: 0 <= j < r.value ==> files[j].fd != fd)
    ensures r.None? ==> forall j :: 0 <= j < |files| ==> files[j].fd != fd
  {
    if |files| == 0 then None
    else if files[0].fd == fd then Some(0)
    else match FindFd(files[1..], fd)
      case None => None
      case Some(j) => Some(j + 1)
  }

  /** Taking an open file out keeps the others bound and distinct. */
  lemma FilesDrop(files: seq<FileElem>, i: nat, handles: map<Handle, InodeId>, nextFd: int)
    requires i < |files| && forall a :: 0 <= a < |files| ==> files[a].file in handles && files[a].fd < nextFd
    requires forall a, b :: 0 <= a < b < |files| ==> files[a].fd != files[b].fd
    ensures var rest := files[..i] + files[i + 1..];
      (forall a :: 0 <= a < |rest| ==> rest[a].file in handles && rest[a].fd < nextFd)
      && forall a, b :: 0 <= a < b < |rest| ==> rest[a].fd != rest[b].fd
  {
    DropKeeps(files, i);
  }

  /** A descriptor no open file has is found at the back once appended. */
  lemma {:induction false} FindFdAppend(files: seq<FileElem>, e: FileElem)
    requires FindFd(files, e.fd).None?
    ensures FindFd(files + [e], e.fd) == Some(|files|)
  {
    if |files| > 0 {
      assert (files + [e])[1..] == files[1..] + [e];
      FindFdAppend(files[1..], e);
    }
  }

  /** Taking out the open file at i of a table with distinct descriptors
      leaves its descriptor unknown and every other one as it was. */
  lemma FindFdRemove(files: seq<FileElem>, i: nat)
    requires i < |files| && forall a, b :: 0 <= a < b < |files| ==> files[a].fd != files[b].fd
    ensures var rest := files[..i] + files[i + 1..];
      FindFd(rest, files[i].fd).None?
      && forall g :: g != files[i].fd ==> (FindFd(rest, g).Some? <==> FindFd(files, g).Some?)
  {
    var rest := files[..i] + files[i + 1..];
    DropKeeps(files, i);
    forall j | 0 <= j < |rest|
      ensures rest[j].fd != files[i].fd
    {
      if j < i { assert rest[j] == files[j]; } else { assert rest[j] == files[j + 1]; }
    }
    forall g | g != files[i].fd
      ensures FindFd(rest, g).Some? <==> FindFd(files, g).Some?
    {
      if FindFd(files, g).Some? {
        var w := FindFd(files, g).value;
        if w < i { assert rest[w].fd == g; } else { assert rest[w - 1].fd == g; }
      }
      if FindFd(rest, g).Some? {
        var w := FindFd(rest, g).value;
        if w < i { assert files[w].fd == g; } else { assert files[w + 1].fd == g; }
      }
    }
  }

  /** A mapping with a fresh id, a bound handle and an aligned non-null
      address keeps the mapping list bound, aligned and distinct. */
  lemma MapsAppend(maps: seq<MmapEntry>, e: MmapEntry, handles: map<Handle, InodeId>)
    requires forall i :: 0 <= i < |maps| ==>
      (maps[i].file in handles && 0 <= maps[i].id < e.id && maps[i].addr != 0 && maps[i].addr % PGSIZE == 0)
    requires e.file in handles && 0 <= e.id && e.addr != 0 && e.addr % PGSIZE == 0
    ensures var m := maps + [e];
      (forall i :: 0 <= i < |m| ==> m[i].file in handles && 0 <= m[i].id < e.id + 1 && m[i].addr != 0 && m[i].addr % PGSIZE == 0)
      && forall i :: 0 <= i < |maps| ==> m[i].id != e.id
  {
  }

  /** The first mapping with id. */
  function FindMap(maps: seq<MmapEntry>, id: int): (r: Option<nat>)
    ensures r.Some? ==> (r.value < |maps| && maps[r.value].id == id
      && forall j :: 0 <= j < r.value ==> maps[j].id != id)
    ensures r.None? ==> forall j :: 0 <= j < |maps| ==> maps[j].id != id
  {
    if |maps| == 0 then None
    else if maps[0].id == id then Some(0)
    else match FindMap(maps[1..], id)
      case None => None
      case Some(j) => Some(j + 1)
  }

  /** Taking out the mapping at i of a list with distinct ids leaves its
      id unknown. */
  lemma FindMapRemove(maps: seq<MmapEntry>, i: nat)
    requires i < |maps| && forall a, b :: 0 <= a < b < |maps| ==> maps[a].id != maps[b].id
    ensures FindMap(maps[..i] + maps[i + 1..], maps[i].id).None?
  {
    DropKeeps(maps, i);
  }

  /** Page key k of thread t lies in the n pages from base. */
  predicate MapCovers(t: Tid, base: Addr, n: nat, k: PageKey)
  {
    k.tid == t && k.page % PGSIZE == 0 && base <= k.page < base + n * PGSIZE
  }

  /** check_mmap_overlaps' probe: neither a record nor a mapping for the
      page at base + m * 4096, for every m with m * 4096 <= size, so one
      page past the end of the file is probed as well. */
  ghost predicate NoOverlap(sup: map<PageKey, SupEntry>, pagedir: map<PageKey, Pte>, t: Tid, base: Addr, size: int)
  {
    forall m: nat :: m * PGSIZE <= size ==>
      PageKey(t, RoundDown(base + m * PGSIZE)) !in sup && PageKey(t, RoundDown(base + m * PGSIZE)) !in pagedir
  }

  /** mmap's zero_bytes: the zeros that pad size bytes to whole pages. */
  function PadBytes(size: nat): (z: nat)
    ensures z < PGSIZE && (size + z) % PGSIZE == 0
  {
    (PGSIZE - size % PGSIZE) % PGSIZE
  }

  /** The region lazy_load registers for a mapping of size bytes of file h
      at base. */
  function MapRegion(h: Handle, base: Addr, size: nat): Region
  {
    Region(h, 0, base, size, PadBytes(size), true, true)
  }

  /** The pages of a mapping are exactly the pages its file's bytes fall in:
      page m holds file bytes exactly when m * 4096 < size. */
  lemma MapRegionPages(h: Handle, base: Addr, size: nat, m: nat)
    ensures m < PageCount(MapRegion(h, base, size)) <==> m * PGSIZE < size
  {
    var n := PageCount(MapRegion(h, base, size));
    var z := PadBytes(size);
    PagesInDiv(size + z);
    assert (size + z) / PGSIZE * PGSIZE == size + z;
    if m < n {
      assert m * PGSIZE <= (n - 1) * PGSIZE;
      assert m * PGSIZE + PGSIZE <= size + z;
    } else {
      assert m * PGSIZE >= n * PGSIZE;
    }
  }

  /** A range that passes the overlap probe has no record for any page of
      the region registered for it, so that lazy_load cannot fail. */
  lemma {:induction false} NoOverlapFresh(sup: map<PageKey, SupEntry>, pagedir: map<PageKey, Pte>, t: Tid, h: Handle,
                                          base: Addr, size: nat, n: nat)
    requires base % PGSIZE == 0 && NoOverlap(sup, pagedir, t, base, size)
    requires n <= PageCount(MapRegion(h, base, size))
    ensures FreshPages(sup, t, MapRegion(h, base, size), n)
  {
    if n > 0 {
      NoOverlapFresh(sup, pagedir, t, h, base, size, n - 1);
      MapRegionPages(h, base, size, n - 1);
      AlignedAt(base, n - 1);
      assert RoundDown(base + (n - 1) * PGSIZE) == base + (n - 1) * PGSIZE;
    }
  }

  /** The files after do_free_mmap_entry's write-backs of the first n
      pages from base, in page order. */
  function WriteBacks(inodes: map<InodeId, seq<byte>>, handles: map<Handle, InodeId>, sup: map<PageKey, SupEntry>,
                      pagedir: map<PageKey, Pte>, mem: map<Addr, seq<byte>>, t: Tid, base: Addr, n: nat): (r: map<InodeId, seq<byte>>)
  {
    if n == 0 then inodes
    else WriteBack(WriteBacks(inodes, handles, sup, pagedir, mem, t, base, n - 1), handles, sup, pagedir, mem,
                   PageKey(t, base + (n - 1) * PGSIZE))
  }

  /** Unmapping pages none of which is dirty writes nothing back. */
  lemma {:induction false} WriteBacksClean(inodes: map<InodeId, seq<byte>>, handles: map<Handle, InodeId>, sup: map<PageKey, SupEntry>,
                                           pagedir: map<PageKey, Pte>, mem: map<Addr, seq<byte>>, t: Tid, base: Addr, n: nat)
    requires forall m :: 0 <= m < n ==> !IsDirty(pagedir, PageKey(t, base + m * PGSIZE))
    ensures WriteBacks(inodes, handles, sup, pagedir, mem, t, base, n) == inodes
  {
    if n > 0 {
      WriteBacksClean(inodes, handles, sup, pagedir, mem, t, base, n - 1);
    }
  }

  /** Write-backs never add a file or change the length of one. */
  lemma {:induction false} WriteBacksShape(inodes: map<InodeId, seq<byte>>, handles: map<Handle, InodeId>, sup: map<PageKey, SupEntry>,
                                           pagedir: map<PageKey, Pte>, mem: map<Addr, seq<byte>>, t: Tid, base: Addr, n: nat)
    ensures var r := WriteBacks(inodes, handles, sup, pagedir, mem, t, base, n);
      r.Keys == inodes.Keys && forall i :: i in inodes ==> |r[i]| == |inodes[i]|
  {
    if n > 0 {
      WriteBacksShape(inodes, handles, sup, pagedir, mem, t, base, n - 1);
    }
  }

  /** The tables after do_free_mmap_entry has torn down the first j pages
      of t's mapping at base, against the tables it started from: those
      pages' records, mappings and frames are gone and every other page's
      are as they were. */
  ghost predicate TornTables(t: Tid, base: Addr, j: nat, sup0: map<PageKey, SupEntry>, pagedir0: map<PageKey, Pte>, frames0: seq<FrameEntry>,
                       sup: map<PageKey, SupEntry>, pagedir: map<PageKey, Pte>, frames: seq<FrameEntry>)
  {
    (forall k :: k in sup <==> k in sup0 && !MapCovers(t, base, j, k))
    && (forall k :: k in sup ==> sup[k] == sup0[k])
    && (forall k :: k in pagedir <==> k in pagedir0 && !MapCovers(t, base, j, k))
    && (forall k :: k in pagedir ==> pagedir[k] == pagedir0[k])
    && (forall f :: f in frames <==> f in frames0 && !MapCovers(t, base, j, f.supKey))
  }

  /** The pages among the n from base that have a record. */
  ghost function Recorded(sup: map<PageKey, SupEntry>, t: Tid, base: Addr, n: nat): (r: set<PageKey>)
    ensures forall k :: k in r <==> k in sup && MapCovers(t, base, n, k)
  {
    set k | k in sup && MapCovers(t, base, n, k)
  }

  /** The swap bitmap after the first j pages are torn down: done holds
      those of them that had a record, and exactly the sectors of their
      swap slots are released. */
  ghost predicate TornSwap(t: Tid, base: Addr, j: nat, sup0: map<PageKey, SupEntry>, used0: seq<bool>, done: set<PageKey>, used: seq<bool>)
  {
    (forall k :: k in done <==> k in sup0 && MapCovers(t, base, j, k))
    && |used| == |used0|
    && (forall i :: 0 <= i < |used| ==> used[i] == (used0[i] && !SwapCoveredBy(sup0, done, i)))
  }

  /** Tearing down page j keeps the swap bitmap in step. */
  lemma SwapStep(t: Tid, base: Addr, j: nat, sup0: map<PageKey, SupEntry>, used0: seq<bool>, done: set<PageKey>,
                 used: seq<bool>, sup: map<PageKey, SupEntry>, used': seq<bool>) returns (done': set<PageKey>)
    requires base % PGSIZE == 0 && TornSwap(t, base, j, sup0, used0, done, used)
    requires var key := PageKey(t, base + j * PGSIZE);
      (key in sup <==> key in sup0)
      && (key in sup ==> sup[key] == sup0[key] && (sup[key].swapIdx == NOT_IN_SWAP || sup[key].swapIdx >= 0))
      && used' == if key in sup then UnmapRecord(sup, used, key).1 else used
    ensures TornSwap(t, base, j + 1, sup0, used0, done', used')
  {
    var key := PageKey(t, base + j * PGSIZE);
    forall k ensures MapCovers(t, base, j + 1, k) <==> MapCovers(t, base, j, k) || k == key {
      CoversNext(t, base, j, k);
    }
    if key in sup0 {
      ReleaseStep(used0, used, used', sup0, done, key);
      done' := done + {key};
    } else {
      done' := done;
    }
  }

  /** Two page-aligned addresses less than a page apart are equal. */
  lemma AlignedClose(a: nat, b: nat)
    requires a % PGSIZE == 0 && b % PGSIZE == 0 && a <= b < a + PGSIZE
    ensures a == b
  {
  }

  /** The n + 1 pages from base are the first n and page n. */
  lemma CoversNext(t: Tid, base: Addr, n: nat, k: PageKey)
    requires base % PGSIZE == 0
    ensures MapCovers(t, base, n + 1, k) <==> MapCovers(t, base, n, k) || k == PageKey(t, base + n * PGSIZE)
  {
    AlignedAt(base, n);
    if MapCovers(t, base, n + 1, k) && !MapCovers(t, base, n, k) {
      AlignedClose(base + n * PGSIZE, k.page);
    }
  }

  /** The tables after do_free_mmap_entry has torn down the n pages of
      thread t from base, one after the other, from s. */
  function Teardown(s: Tables, handles: map<Handle, InodeId>, mem: map<Addr, seq<byte>>, t: Tid, base: Addr, n: nat): Tables
  {
    if n == 0 then s
    else Unmapped(Teardown(s, handles, mem, t, base, n - 1), handles, mem, PageKey(t, base + (n - 1) * PGSIZE))
  }

  /** The teardown of j + 1 pages is that of j pages, then page j. */
  lemma TeardownSucc(s: Tables, handles: map<Handle, InodeId>, mem: map<Addr, seq<byte>>, t: Tid, base: Addr, j: nat)
    ensures Teardown(s, handles, mem, t, base, j + 1)
      == Unmapped(Teardown(s, handles, mem, t, base, j), handles, mem, PageKey(t, base + j * PGSIZE))
  {
  }

  /** What the teardown of the n pages from base relies on: distinct
      frames, each bound to a record, and every page of the range coherent
      with a record, if it has one, that names a file. */
  ghost predicate Unmappable(s: Tables, t: Tid, base: Addr, n: nat)
  {
    DistinctFrames(s.frames) && FramesBound(s.frames, s.sup)
    && forall k :: MapCovers(t, base, n, k) ==> CoherentAt(s.frames, s.pagedir, k) && (k in s.sup ==> s.sup[k].file.Some?)
  }

  /** The teardown leaves the record and the mapping of every page
      outside its range as they were. */
  lemma {:induction false} TeardownOutside(s: Tables, handles: map<Handle, InodeId>, mem: map<Addr, seq<byte>>,
                                           t: Tid, base: Addr, n: nat, k: PageKey)
    requires base % PGSIZE == 0 && !MapCovers(t, base, n, k)
    ensures var r := Teardown(s, handles, mem, t, base, n);
      (k in r.sup <==> k in s.sup) && (k in r.sup ==> r.sup[k] == s.sup[k])
      && (k in r.pagedir <==> k in s.pagedir) && (k in r.pagedir ==> r.pagedir[k] == s.pagedir[k])
  {
    if n > 0 {
      TeardownOutside(s, handles, mem, t, base, n - 1, k);
      AlignedAt(base, n - 1);
      assert k != PageKey(t, base + (n - 1) * PGSIZE);
      UnmappedKeys(Teardown(s, handles, mem, t, base, n - 1), handles, mem, PageKey(t, base + (n - 1) * PGSIZE));
    }
  }

  /** The teardown keeps frames distinct and bound to records and every
      page outside its range that was coherent coherent, and leaves
      exactly the frames of the pages outside its range, provided every
      page of its range starts out coherent. */
  lemma {:induction false} TeardownCoherent(s: Tables, handles: map<Handle, InodeId>, mem: map<Addr, seq<byte>>,
                                            t: Tid, base: Addr, n: nat)
    requires base % PGSIZE == 0 && DistinctFrames(s.frames) && FramesBound(s.frames, s.sup)
    requires forall k :: MapCovers(t, base, n, k) ==> CoherentAt(s.frames, s.pagedir, k)
    ensures var r := Teardown(s, handles, mem, t, base, n);
      DistinctFrames(r.frames) && FramesBound(r.frames, r.sup)
      && (forall q :: !MapCovers(t, base, n, q) && CoherentAt(s.frames, s.pagedir, q) ==> CoherentAt(r.frames, r.pagedir, q))
      && forall f :: f in r.frames <==> f in s.frames && !MapCovers(t, base, n, f.supKey)
  {
    if n > 0 {
      TeardownCoherent(s, handles, mem, t, base, n - 1);
      var p := Teardown(s, handles, mem, t, base, n - 1);
      var key := PageKey(t, base + (n - 1) * PGSIZE);
      AlignedAt(base, n - 1);
      assert MapCovers(t, base, n, key) && !MapCovers(t, base, n - 1, key);
      UnmappedStep(p, handles, mem, key);
      forall q | !MapCovers(t, base, n, q)
        ensures !MapCovers(t, base, n - 1, q) && q != key
      {
      }
      var r := Unmapped(p, handles, mem, key);
      forall f ensures f in r.frames <==> f in s.frames && !MapCovers(t, base, n, f.supKey) {
        CoversNext(t, base, n - 1, f.supKey);
      }
    }
  }

  /** After the teardown the pages of its range have neither a record nor
      a mapping. */
  lemma {:induction false} TeardownGone(s: Tables, handles: map<Handle, InodeId>, mem: map<Addr, seq<byte>>,
                                        t: Tid, base: Addr, n: nat)
    requires base % PGSIZE == 0 && Unmappable(s, t, base, n)
    ensures var r := Teardown(s, handles, mem, t, base, n);
      forall k :: MapCovers(t, base, n, k) ==> k !in r.sup && k !in r.pagedir
  {
    if n > 0 {
      TeardownGone(s, handles, mem, t, base, n - 1);
      TeardownCoherent(s, handles, mem, t, base, n - 1);
      var p := Teardown(s, handles, mem, t, base, n - 1);
      var key := PageKey(t, base + (n - 1) * PGSIZE);
      AlignedAt(base, n - 1);
      assert MapCovers(t, base, n, key) && !MapCovers(t, base, n - 1, key);
      UnmappedStep(p, handles, mem, key);
      forall k | MapCovers(t, base, n, k) ensures MapCovers(t, base, n - 1, k) || k == key {
        CoversNext(t, base, n - 1, k);
      }
    }
  }

  /** The tables after the teardown, against the tables before it: the
      records, mappings and frames of the range are gone and nothing else
      changed. */
  lemma TeardownTables(s: Tables, handles: map<Handle, InodeId>, mem: map<Addr, seq<byte>>, t: Tid, base: Addr, n: nat)
    requires base % PGSIZE == 0 && Unmappable(s, t, base, n)
    ensures var r := Teardown(s, handles, mem, t, base, n);
      TornTables(t, base, n, s.sup, s.pagedir, s.frames, r.sup, r.pagedir, r.frames)
  {
    TeardownGone(s, handles, mem, t, base, n);
    TeardownCoherent(s, handles, mem, t, base, n);
    var r := Teardown(s, handles, mem, t, base, n);
    forall k | !MapCovers(t, base, n, k)
      ensures (k in r.sup <==> k in s.sup) && (k in r.sup ==> r.sup[k] == s.sup[k])
        && (k in r.pagedir <==> k in s.pagedir) && (k in r.pagedir ==> r.pagedir[k] == s.pagedir[k])
    {
      TeardownOutside(s, handles, mem, t, base, n, k);
    }
  }

  /** The teardown writes the dirty pages back in page order. */
  lemma {:induction false} TeardownFiles(s: Tables, handles: map<Handle, InodeId>, mem: map<Addr, seq<byte>>,
                                         t: Tid, base: Addr, n: nat)
    requires base % PGSIZE == 0
    ensures Teardown(s, handles, mem, t, base, n).inodes == WriteBacks(s.inodes, handles, s.sup, s.pagedir, mem, t, base, n)
  {
    if n > 0 {
      TeardownFiles(s, handles, mem, t, base, n - 1);
      var key := PageKey(t, base + (n - 1) * PGSIZE);
      AlignedAt(base, n - 1);
      TeardownOutside(s, handles, mem, t, base, n - 1, key);
      var p := Teardown(s, handles, mem, t, base, n - 1);
      UnmappedKeys(p, handles, mem, key);
      WriteBackLocal(p.inodes, handles, mem, key, p.sup, p.pagedir, s.sup, s.pagedir);
    }
  }

  /** The records and the swap bitmap after the teardown of the n pages
      from base as intended: each page's record goes with its swap slot,
      as do_sup_table_entry_free releases it. */
  function RecordsAfter(sup: map<PageKey, SupEntry>, used: seq<bool>, t: Tid, base: Addr, n: nat): (map<PageKey, SupEntry>, seq<bool>)
  {
    if n == 0 then (sup, used)
    else
      var p := RecordsAfter(sup, used, t, base, n - 1);
      var key := PageKey(t, base + (n - 1) * PGSIZE);
      if key in p.0 then UnmapRecord(p.0, p.1, key) else p
  }

  /** The records the teardown leaves are those of the record-by-record
      unmapping, and as written its swap bitmap is the one it started
      from. */
  lemma {:induction false} TeardownRecords(s: Tables, handles: map<Handle, InodeId>, mem: map<Addr, seq<byte>>,
                                           t: Tid, base: Addr, n: nat)
    ensures var r := Teardown(s, handles, mem, t, base, n); r.sup == RecordsAfter(s.sup, s.used, t, base, n).0 && r.used == s.used
  {
    if n > 0 {
      TeardownRecords(s, handles, mem, t, base, n - 1);
      UnmappedRecords(Teardown(s, handles, mem, t, base, n - 1), handles, mem, PageKey(t, base + (n - 1) * PGSIZE));
    }
  }

  /** The record-by-record unmapping releases exactly the swap slots of
      the pages in its range that had a record. */
  lemma {:induction false} RecordsAfterSwap(sup: map<PageKey, SupEntry>, used: seq<bool>, t: Tid, base: Addr, n: nat)
    requires base % PGSIZE == 0
    requires forall k :: k in sup ==> sup[k].swapIdx == NOT_IN_SWAP || sup[k].swapIdx >= 0
    ensures TornSwap(t, base, n, sup, used, Recorded(sup, t, base, n), RecordsAfter(sup, used, t, base, n).1)
    ensures forall k :: k in RecordsAfter(sup, used, t, base, n).0 <==> k in sup && !MapCovers(t, base, n, k)
    ensures forall k :: k in RecordsAfter(sup, used, t, base, n).0 ==> RecordsAfter(sup, used, t, base, n).0[k] == sup[k]
  {
    if n > 0 {
      RecordsAfterSwap(sup, used, t, base, n - 1);
      var p := RecordsAfter(sup, used, t, base, n - 1);
      var key := PageKey(t, base + (n - 1) * PGSIZE);
      AlignedAt(base, n - 1);
      assert !MapCovers(t, base, n - 1, key);
      var done' := SwapStep(t, base, n - 1, sup, used, Recorded(sup, t, base, n - 1), p.1, p.0,
                            RecordsAfter(sup, used, t, base, n).1);
      assert done' == Recorded(sup, t, base, n);
      forall k ensures MapCovers(t, base, n, k) <==> MapCovers(t, base, n - 1, k) || k == key {
        CoversNext(t, base, n - 1, k);
      }
    }
  }

  /** As written, the teardown keeps in use every sector the intended
      teardown releases: the swap slots of the pages in its range that
      had a record. */
  lemma TeardownLeaks(s: Tables, handles: map<Handle, InodeId>, mem: map<Addr, seq<byte>>, t: Tid, base: Addr, n: nat)
    requires base % PGSIZE == 0
    requires forall k :: k in s.sup ==> s.sup[k].swapIdx == NOT_IN_SWAP || s.sup[k].swapIdx >= 0
    ensures var r, q := Teardown(s, handles, mem, t, base, n), RecordsAfter(s.sup, s.used, t, base, n);
      r.sup == q.0 && r.used == s.used && |q.1| == |s.used|
      && forall i :: 0 <= i < |s.used| && SwapCoveredBy(s.sup, Recorded(s.sup, t, base, n), i) ==> !q.1[i]
  {
    TeardownRecords(s, handles, mem, t, base, n);
    RecordsAfterSwap(s.sup, s.used, t, base, n);
  }

  /** Every page of every mapping has a record naming a file, and no two
      mappings share a page: syscall_mmap registers a record per page of
      a range no record touches, and only syscall_munmap takes them out. */
  ghost predicate Backed(maps: seq<MmapEntry>, sup: map<PageKey, SupEntry>, t: Tid)
  {
    (forall i, k :: 0 <= i < |maps| && MapCovers(t, maps[i].addr, maps[i].pageCount, k) ==> k in sup && sup[k].file.Some?)
    && (forall i, j, k :: 0 <= i < j < |maps| && MapCovers(t, maps[i].addr, maps[i].pageCount, k) ==>
          !MapCovers(t, maps[j].addr, maps[j].pageCount, k))
  }

  /** No page of mapping e is a page of any of maps. */
  ghost predicate Apart(maps: seq<MmapEntry>, e: MmapEntry, t: Tid)
  {
    forall i, k :: 0 <= i < |maps| && MapCovers(t, maps[i].addr, maps[i].pageCount, k) ==> !MapCovers(t, e.addr, e.pageCount, k)
  }

  /** The records lazy_load files for m pages of a region on a page
      boundary are those of exactly the m pages from its start, each
      naming the region's file, and with FreshPages none of those pages
      had a record. */
  lemma {:induction false} LazyCovers(sup0: map<PageKey, SupEntry>, t: Tid, g: Region, now: nat, m: nat)
    requires g.upage % PGSIZE == 0 && FreshPages(sup0, t, g, m)
    ensures forall k :: MapCovers(t, g.upage, m, k) ==>
      k !in sup0 && k in LazyPages(t, g, now, m) && LazyPages(t, g, now, m)[k].file == Some(g.file)
    ensures forall k :: k in LazyPages(t, g, now, m) ==> MapCovers(t, g.upage, m, k)
  {
    if m > 0 {
      LazyCovers(sup0, t, g, now, m - 1);
      AlignedAt(g.upage, m - 1);
      forall k ensures MapCovers(t, g.upage, m, k) <==> MapCovers(t, g.upage, m - 1, k) || k == LazyKey(t, g, m - 1) {
        CoversNext(t, g.upage, m - 1, k);
      }
    }
  }

  /** A mapping whose pages had no record and now have records naming a
      file keeps the mappings backed, when the old records are kept. */
  lemma BackedAppend(maps: seq<MmapEntry>, e: MmapEntry, sup0: map<PageKey, SupEntry>, sup: map<PageKey, SupEntry>, t: Tid)
    requires Backed(maps, sup0, t) && Kept(sup0, sup)
    requires forall k :: MapCovers(t, e.addr, e.pageCount, k) ==> k !in sup0 && k in sup && sup[k].file.Some?
    ensures Backed(maps + [e], sup, t)
  {
    var m := maps + [e];
    forall i, k | 0 <= i < |m| && MapCovers(t, m[i].addr, m[i].pageCount, k)
      ensures k in sup && sup[k].file.Some?
    {
      if i < |maps| {
        assert m[i] == maps[i];
      }
    }
    forall i, j, k | 0 <= i < j < |m| && MapCovers(t, m[i].addr, m[i].pageCount, k)
      ensures !MapCovers(t, m[j].addr, m[j].pageCount, k)
    {
      assert m[i] == maps[i];
      if j < |maps| {
        assert m[j] == maps[j];
      }
    }
  }

  /** Taking out the mapping at i keeps the others backed and apart from
      it, and its pages have records naming a file. */
  lemma BackedRemove(maps: seq<MmapEntry>, i: nat, sup: map<PageKey, SupEntry>, t: Tid)
    requires Backed(maps, sup, t) && i < |maps|
    ensures var rest := maps[..i] + maps[i + 1..];
      Backed(rest, sup, t) && Apart(rest, maps[i], t)
      && forall k :: MapCovers(t, maps[i].addr, maps[i].pageCount, k) ==> k in sup && sup[k].file.Some?
  {
    var rest := maps[..i] + maps[i + 1..];
    assert forall a :: 0 <= a < |rest| ==> rest[a] == if a < i then maps[a] else maps[a + 1];
  }

  /** The teardown of a mapping apart from maps keeps maps backed. */
  lemma BackedTorn(maps: seq<MmapEntry>, e: MmapEntry, s: Tables, handles: map<Handle, InodeId>, mem: map<Addr, seq<byte>>, t: Tid)
    requires e.addr % PGSIZE == 0 && Backed(maps, s.sup, t) && Apart(maps, e, t)
    ensures Backed(maps, Teardown(s, handles, mem, t, e.addr, e.pageCount).sup, t)
  {
    forall i, k | 0 <= i < |maps| && MapCovers(t, maps[i].addr, maps[i].pageCount, k)
      ensures k in Teardown(s, handles, mem, t, e.addr, e.pageCount).sup
        && Teardown(s, handles, mem, t, e.addr, e.pageCount).sup[k] == s.sup[k]
    {
      TeardownOutside(s, handles, mem, t, e.addr, e.pageCount, k);
    }
  }

  /** One turn of the loop of do_free_mmap_entry: page j of the n from
      base goes. */
  method UnmapNext(vm: Vm, ghost s0: Tables, t: Tid, base: Addr, n: nat, j: nat, addr: Addr)
    requires vm.Valid() && base != 0 && base % PGSIZE == 0 && j < n && addr == base + j * PGSIZE
    requires Unmappable(s0, t, base, n) && vm.State() == Teardown(s0, vm.handles, vm.mem, t, base, j) && vm.Paged()
    modifies vm`frames, vm`free, vm`sup, vm`pagedir, vm`inodes, vm.swap`used
    ensures vm.Valid() && vm.Paged() && vm.State() == Teardown(s0, vm.handles, vm.mem, t, base, j + 1)
  {
    AlignedAt(base, j);
    TeardownCoherent(s0, vm.handles, vm.mem, t, base, j);
    TeardownOutside(s0, vm.handles, vm.mem, t, base, j, PageKey(t, addr));
    assert MapCovers(t, base, n, PageKey(t, addr)) && !MapCovers(t, base, j, PageKey(t, addr));
    vm.UnmapPage(t, addr);
    TeardownSucc(s0, vm.handles, vm.mem, t, base, j);
  }

  /** The loop of do_free_mmap_entry: the n pages of thread t from base
      go one after the other. */
  method UnmapPages(vm: Vm, t: Tid, base: Addr, n: nat)
    requires vm.Valid() && vm.Paged() && base != 0 && base % PGSIZE == 0
    requires forall k :: MapCovers(t, base, n, k) && k in vm.sup ==> vm.sup[k].file.Some?
    modifies vm`frames, vm`free, vm`sup, vm`pagedir, vm`inodes, vm.swap`used
    ensures vm.Valid() && vm.Paged() && vm.State() == Teardown(old(vm.State()), vm.handles, vm.mem, t, base, n)
  {
    ghost var s0 := vm.State();
    forall k | MapCovers(t, base, n, k)
      ensures CoherentAt(s0.frames, s0.pagedir, k)
    {
      assert PagedAt(vm.frames, vm.pagedir, vm.sup, k);
    }
    assert Unmappable(s0, t, base, n);
    var addr := base;
    var j := 0;
    while j < n
      invariant 0 <= j <= n && addr == base + j * PGSIZE && vm.Valid() && vm.Paged()
      invariant vm.State() == Teardown(s0, vm.handles, vm.mem, t, base, j)
    {
      UnmapNext(vm, s0, t, base, n, j, addr);
      addr := addr + PGSIZE;
      j := j + 1;
    }
  }

  /** The lazy_load of syscall_mmap: one mmap record per page of the
      mapping of f at addr, read_bytes rb and zero_bytes zb. It cannot
      fail, as no page of the range is in use. */
  method LoadMapping(vm: Vm, t: Tid, f: Handle, addr: Addr, rb: nat, zb: nat, now: nat)
    requires vm.Valid() && f in vm.handles && addr % PGSIZE == 0 && zb == (PGSIZE - rb % PGSIZE) % PGSIZE
    requires NoOverlap(vm.sup, vm.pagedir, t, addr, rb)
    modifies vm`sup
    ensures vm.Valid() && (old(vm.Paged()) ==> vm.Paged())
    ensures var g := MapRegion(f, addr, rb);
      (rb + zb) / PGSIZE == PageCount(g)
      && FreshPages(old(vm.sup), t, g, PageCount(g)) && vm.sup == old(vm.sup) + LazyPages(t, g, now, PageCount(g))
  {
    var pageCount := (rb + zb) / PGSIZE;
    ghost var g := MapRegion(f, addr, rb);
    PagesInDiv(rb + zb);
    assert g == Region(f, 0, addr, rb, zb, true, true) && pageCount == PageCount(g);
    NoOverlapFresh(vm.sup, vm.pagedir, t, f, addr, rb, pageCount);
    forall m | 0 <= m < pageCount
      ensures LazyKey(t, g, m) !in vm.sup
    {
      FreshPagesAt(vm.sup, t, g, pageCount, m);
    }
    var loaded := vm.LazyLoad(t, f, 0, addr, rb, zb, true, true, now);
    if !loaded {
      assert false;
    }
  }

  /** The addresses check_valid_ptr lets through to the page-table lookup:
      not null, below PHYS_BASE and not below the user image. */
  predicate UserPtr(ptr: Addr)
  {
    ptr != 0 && !IsKernelAddr(ptr) && ptr >= USER_BOTTOM
  }

  /** check_valid_ptr for thread t with checker_esp esp. An address whose
      page is not mapped is paged in by try_get_page; Killed stands for the
      syscall_exit (-1) taken on a refused address or a failed page-in. */
  method CheckValidPtr(vm: Vm, t: Tid, ptr: Addr, esp: nat, now: nat) returns (st: Status)
    requires vm.Valid() && vm.Paged() && esp < UINT32_LIMIT
    modifies vm`free, vm`frames, vm`mem, vm`sup, vm`pagedir, vm`inodes, vm.swap
    ensures vm.Valid() && vm.Paged() && Kept(old(vm.sup), vm.sup) && (st == Success || st == Killed)
    ensures !UserPtr(ptr) ==> st == Killed && unchanged(vm, vm.swap)
    ensures var key := PageKey(t, RoundDown(ptr));
      (st == Success ==> key in vm.pagedir)
      && (UserPtr(ptr) && key in old(vm.pagedir) ==> st == Success && unchanged(vm, vm.swap))
      && (UserPtr(ptr) && key !in old(vm.pagedir) && key !in old(vm.sup) && ptr < StackLimit(esp) ==>
            st == Killed && vm.sup == old(vm.sup) && vm.pagedir == old(vm.pagedir))
  {
    if ptr == 0 || IsKernelAddr(ptr) || ptr < USER_BOTTOM {
      return Killed;
    }
    if PageKey(t, RoundDown(ptr)) in vm.pagedir {
      return Success;
    }
    var r, i := vm.TryGetPage(t, ptr, esp, now);
    st := if r == Success then Success else Killed;
  }

  /** The pages the bytes [start, start + size) lie on, in increasing
      order, each once: from the page of the first byte to that of the
      last. */
  function SpannedPages(start: Addr, size: nat): (r: seq<Addr>)
    ensures size == 0 <==> r == []
    ensures forall i, j :: 0 <= i < j < |r| ==> r[i] < r[j]
  {
    if size == 0 then []
    else seq((start % PGSIZE + size - 1) / PGSIZE + 1, j => RoundDown(start) + j * PGSIZE)
  }

  /** pg_round_down of an address offset x from a page boundary b. */
  lemma RoundDownOffset(b: Addr, x: nat)
    requires b % PGSIZE == 0
    ensures RoundDown(b + x) == b + (x / PGSIZE) * PGSIZE
  {
  }

  /** Every page of SpannedPages holds a byte of the range, and the page
      of every byte of the range is among them. */
  lemma SpannedPagesCover(start: Addr, size: nat)
    ensures forall j :: 0 <= j < |SpannedPages(start, size)| ==>
      (SpannedPages(start, size)[j] % PGSIZE == 0
       && start < SpannedPages(start, size)[j] + PGSIZE && SpannedPages(start, size)[j] < start + size)
    ensures forall a :: start <= a < start + size ==> RoundDown(a) in SpannedPages(start, size)
  {
    var r := SpannedPages(start, size);
    var b, m := RoundDown(start), start % PGSIZE;
    forall j | 0 <= j < |r|
      ensures r[j] % PGSIZE == 0 && start < r[j] + PGSIZE && r[j] < start + size
    {
      assert r[j] == b + j * PGSIZE;
      assert j <= (m + size - 1) / PGSIZE;
    }
    forall a | start <= a < start + size
      ensures RoundDown(a) in r
    {
      RoundDownOffset(b, a - b);
      var q := (a - b) / PGSIZE;
      assert q <= (m + size - 1) / PGSIZE;
      assert r[q] == RoundDown(a);
    }
  }

  /** One more byte adds its page to SpannedPages unless the byte before
      it lies on the same page. */
  lemma SpannedStep(start: Addr, i: nat)
    ensures SpannedPages(start, i + 1) ==
      if i > 0 && RoundDown(start + i) == RoundDown(start + i - 1) then SpannedPages(start, i)
      else SpannedPages(start, i) + [RoundDown(start + i)]
  {
    var b, m := RoundDown(start), start % PGSIZE;
    RoundDownOffset(b, m + i);
    if i > 0 {
      RoundDownOffset(b, m + i - 1);
      var q0, q1 := (m + i - 1) / PGSIZE, (m + i) / PGSIZE;
      assert q1 == q0 || q1 == q0 + 1;
      if q1 == q0 {
        assert SpannedPages(start, i + 1) == SpannedPages(start, i);
      } else {
        assert SpannedPages(start, i + 1) == SpannedPages(start, i) + [RoundDown(start + i)];
      }
    } else {
      assert SpannedPages(start, 1) == [RoundDown(start)];
    }
  }

  /** The pages of a range without page 0: what check_valid_mem checks. */
  function WithoutNull(pages: seq<Addr>): (r: seq<Addr>)
    requires forall i, j :: 0 <= i < j < |pages| ==> pages[i] < pages[j]
    ensures forall p :: p in r <==> p in pages && p != 0
    ensures forall i, j :: 0 <= i < j < |r| ==> r[i] < r[j]
  {
    if |pages| > 0 && pages[0] == 0 then pages[1..] else pages
  }

  /** The loop of check_valid_mem as written: the pages, in order, it passes
      to check_valid_ptr. last_page starts as NULL, which is also the
      address of page 0. */
  method CheckedPagesAsWritten(start: Addr, size: nat) returns (pages: seq<Addr>)
    ensures pages == WithoutNull(SpannedPages(start, size))
  {
    var last: Addr := 0;
    pages := [];
    var i := 0;
    while i < size
      invariant 0 <= i <= size
      invariant last == if i == 0 then 0 else RoundDown(start + i - 1)
      invariant pages == WithoutNull(SpannedPages(start, i))
    {
      var cur := RoundDown(start + i);
      SpannedStep(start, i);
      if cur != last {
        ghost var s := SpannedPages(start, i);
        assert i > 0 ==> (s + [cur])[0] == s[0] && (s + [cur])[1..] == s[1..] + [cur];
        last := cur;
        pages := pages + [cur];
      }
      i := i + 1;
    }
  }

  /** A buffer at address 0 of four bytes lies on page 0, and the loop as
      written checks no page for it: check_valid_mem lets it through. */
  lemma NullBufferUnchecked()
    ensures SpannedPages(0, 4) == [0] && WithoutNull(SpannedPages(0, 4)) == []
    ensures !UserPtr(0)
  {
    assert SpannedPages(0, 4) == [0];
  }

  /** The loop of check_valid_mem with no page taken as the last one
      checked: every page of the range is passed to check_valid_ptr, in
      order, once. */
  method CheckedPages(start: Addr, size: nat) returns (pages: seq<Addr>)
    ensures pages == SpannedPages(start, size)
  {
    var last: Option<Addr> := None;
    pages := [];
    var i := 0;
    while i < size
      invariant 0 <= i <= size
      invariant last == if i == 0 then None else Some(RoundDown(start + i - 1))
      invariant pages == SpannedPages(start, i)
    {
      var cur := RoundDown(start + i);
      SpannedStep(start, i);
      if last != Some(cur) {
        last := Some(cur);
        pages := pages + [cur];
      }
      i := i + 1;
    }
  }

  /** A process's view of the system-call layer: its descriptor table and
      mappings, over the virtual-memory state of the machine. */
  class UserProcess {
    const vm: Vm
    const tid: Tid
    /** thread->fd: the descriptor the next open gets */
    var nextFd: int
    /** thread->open_files */
    var openFiles: seq<FileElem>
    /** thread->mmap_id: the id the next mapping gets */
    var nextMapId: int
    /** thread->mmap_list */
    var mmaps: seq<MmapEntry>

    ghost predicate Valid()
      reads this, vm, vm.swap
    {
      vm.Valid()
      && (forall i :: 0 <= i < |openFiles| ==> openFiles[i].file in vm.handles && openFiles[i].fd < nextFd)
      && (forall i, j :: 0 <= i < j < |openFiles| ==> openFiles[i].fd != openFiles[j].fd)
      && (forall i :: 0 <= i < |mmaps| ==>
            mmaps[i].file in vm.handles && 0 <= mmaps[i].id < nextMapId && mmaps[i].addr != 0 && mmaps[i].addr % PGSIZE == 0)
      && 0 <= nextMapId
      && (forall i, j :: 0 <= i < j < |mmaps| ==> mmaps[i].id != mmaps[j].id)
      && vm.Paged() && Backed(mmaps, vm.sup, tid)
    }

    /** A process with no open files and no mappings; thread creation is
        not part of this model, so the first descriptor and mapping id are
        given. */
    constructor (m: Vm, t: Tid, firstFd: int, firstMapId: nat)
      requires m.Valid() && m.Paged()
      ensures Valid() && vm == m && tid == t
      ensures nextFd == firstFd && openFiles == [] && nextMapId == firstMapId && mmaps == []
    {
      vm := m;
      tid := t;
      nextFd := firstFd;
      openFiles := [];
      nextMapId := firstMapId;
      mmaps := [];
    }

    /** get_file: the position of the open file with descriptor fd; None
        stands for the syscall_exit (-1) taken when there is none. */
    method GetFile(fd: int) returns (r: Option<nat>)
      ensures r == FindFd(openFiles, fd)
    {
      var i := 0;
      while i < |openFiles|
        invariant 0 <= i <= |openFiles|
        invariant forall j :: 0 <= j < i ==> openFiles[j].fd != fd
      {
        if openFiles[i].fd == fd {
          assert FindFd(openFiles, fd) == Some(i);
          return Some(i);
        }
        i := i + 1;
      }
      return None;
    }

    /** syscall_open after filesys_open: result is the file it returned,
        None when it failed. The file gets the next descriptor, one no open
        file has, at the back of the table. */
    method Open(result: Option<Handle>) returns (fd: int)
      requires Valid() && (result.Some? ==> result.value in vm.handles)
      modifies this`nextFd, this`openFiles
      ensures Valid()
      ensures result.None? ==> fd == -1 && nextFd == old(nextFd) && openFiles == old(openFiles)
      ensures result.Some? ==> (fd == old(nextFd) && nextFd == old(nextFd) + 1
        && openFiles == old(openFiles) + [FileElem(fd, result.value)]
        && FindFd(old(openFiles), fd).None? && FindFd(openFiles, fd) == Some(|old(openFiles)|))
    {
      if result.None? {
        return -1;
      }
      fd := nextFd;
      FindFdAppend(openFiles, FileElem(fd, result.value));
      nextFd := nextFd + 1;
      openFiles := openFiles + [FileElem(fd, result.value)];
    }

    /** syscall_close: the open file with descriptor fd leaves the table
        and no other does; an unknown descriptor terminates the process.
        file_close itself belongs to the file system and is not part of
        this model. */
    method Close(fd: int) returns (st: Status)
      requires Valid()
      modifies this`openFiles
      ensures Valid()
      ensures FindFd(old(openFiles), fd).None? ==> st == Killed && openFiles == old(openFiles)
      ensures FindFd(old(openFiles), fd).Some? ==> (st == Success
        && openFiles == old(openFiles)[..FindFd(old(openFiles), fd).value] + old(openFiles)[FindFd(old(openFiles), fd).value + 1..]
        && FindFd(openFiles, fd).None?
        && forall g :: g != fd ==> (FindFd(openFiles, g).Some? <==> FindFd(old(openFiles), g).Some?))
    {
      var r := GetFile(fd);
      if r.None? {
        return Killed;
      }
      var i := r.value;
      FindFdRemove(openFiles, i);
      FilesDrop(openFiles, i, vm.handles, nextFd);
      openFiles := openFiles[..i] + openFiles[i + 1..];
      return Success;
    }

    /** The length of the file open as fd, when fd is open. */
    ghost function FdSize(fd: int): nat
      reads this, vm
    {
      match FindFd(openFiles, fd)
      case None => 0
      case Some(i) =>
        if openFiles[i].file in vm.handles && vm.handles[openFiles[i].file] in vm.inodes
        then |vm.inodes[vm.handles[openFiles[i].file]]| else 0
    }

    /** syscall_mmap succeeds: a descriptor past the console ones that is
        open on a non-empty file, a page-aligned non-null address, a
        successful file_reopen and no page of the range already in use. */
    ghost predicate MmapAccepts(fd: int, addr: Addr, reopenOk: bool)
      reads this, vm
    {
      fd >= 2 && addr % PGSIZE == 0 && FindFd(openFiles, fd).Some? && FdSize(fd) > 0 && reopenOk
      && addr != 0 && NoOverlap(vm.sup, vm.pagedir, tid, addr, FdSize(fd))
    }

    /** syscall_mmap: reopenOk says whether file_reopen succeeds. None
        stands for the syscall_exit (-1) of get_file on an unknown
        descriptor; a rejected request returns -1 and changes no table; an
        accepted one maps the file's pages lazily under a fresh private
        handle and returns the next mapping id. A handle reopened for a
        request the overlap probe then rejects stays open. */
    method Mmap(fd: int, addr: Addr, reopenOk: bool, now: nat) returns (r: Option<int>)
      requires Valid()
      modifies this`nextMapId, this`mmaps, vm`handles, vm`sup
      ensures Valid()
      ensures r.None? <==> fd >= 2 && addr % PGSIZE == 0 && FindFd(openFiles, fd).None?
      ensures r.Some? ==> (r.value >= 0 <==> old(MmapAccepts(fd, addr, reopenOk)))
      ensures forall h :: h in old(vm.handles) ==> h in vm.handles && vm.handles[h] == old(vm.handles)[h]
      ensures (r.None? || r == Some(-1)) ==> nextMapId == old(nextMapId) && mmaps == old(mmaps) && vm.sup == old(vm.sup)
      ensures r.Some? && r.value >= 0 ==> (|mmaps| == |old(mmaps)| + 1 &&
        var size := old(FdSize(fd)); var f := mmaps[|old(mmaps)|].file; var g := MapRegion(f, addr, size);
        r.value == old(nextMapId) && nextMapId == old(nextMapId) + 1
        && f !in old(vm.handles) && vm.handles[f] == old(vm.handles)[openFiles[FindFd(openFiles, fd).value].file]
        && mmaps == old(mmaps) + [MmapEntry(r.value, addr, f, PageCount(g))]
        && FreshPages(old(vm.sup), tid, g, PageCount(g)) && vm.sup == old(vm.sup) + LazyPages(tid, g, now, PageCount(g)))
    {
      if fd < 2 || addr % PGSIZE != 0 {
        return Some(-1);
      }
      var fi := GetFile(fd);
      if fi.None? {
        return None;
      }
      var h := openFiles[fi.value].file;
      var size := |vm.inodes[vm.handles[h]]|;
      if size == 0 || !reopenOk {
        return Some(-1);
      }
      var id := MapReopened(h, addr, size, now);
      return Some(id);
    }

    /** syscall_mmap from file_reopen on: the private handle, the overlap
        probe and, when it passes, the mapping. */
    method MapReopened(h: Handle, addr: Addr, size: nat, now: nat) returns (id: int)
      requires Valid() && h in vm.handles && addr % PGSIZE == 0
      modifies this`nextMapId, this`mmaps, vm`handles, vm`sup
      ensures Valid()
      ensures id >= 0 <==> addr != 0 && old(NoOverlap(vm.sup, vm.pagedir, tid, addr, size))
      ensures forall q :: q in old(vm.handles) ==> q in vm.handles && vm.handles[q] == old(vm.handles)[q]
      ensures id < 0 ==> id == -1 && nextMapId == old(nextMapId) && mmaps == old(mmaps) && vm.sup == old(vm.sup)
      ensures id >= 0 ==> (|mmaps| == |old(mmaps)| + 1 &&
        var f := mmaps[|old(mmaps)|].file; var g := MapRegion(f, addr, size);
        id == old(nextMapId) && nextMapId == old(nextMapId) + 1
        && f !in old(vm.handles) && vm.handles[f] == old(vm.handles)[h]
        && mmaps == old(mmaps) + [MmapEntry(id, addr, f, PageCount(g))]
        && FreshPages(old(vm.sup), tid, g, PageCount(g)) && vm.sup == old(vm.sup) + LazyPages(tid, g, now, PageCount(g)))
    {
      var f := vm.FileReopen(h);
      var ok := CheckMmapOverlaps(addr, size);
      if !ok {
        return -1;
      }
      id := MapFile(f, addr, size, now);
    }

    /** The rest of syscall_mmap once the checks pass: new_mmap_entry takes
        the next id, lazy_load registers one mmap record per page (it
        cannot fail, as the range passed the overlap probe) and the mapping
        goes to the back of the list. */
    method MapFile(f: Handle, addr: Addr, size: nat, now: nat) returns (id: int)
      requires Valid() && f in vm.handles && addr != 0 && addr % PGSIZE == 0
      requires NoOverlap(vm.sup, vm.pagedir, tid, addr, size)
      modifies this`nextMapId, this`mmaps, vm`sup
      ensures Valid()
      ensures var g := MapRegion(f, addr, size);
        id == old(nextMapId) && nextMapId == old(nextMapId) + 1 && mmaps == old(mmaps) + [MmapEntry(id, addr, f, PageCount(g))]
        && FreshPages(old(vm.sup), tid, g, PageCount(g)) && vm.sup == old(vm.sup) + LazyPages(tid, g, now, PageCount(g))
    {
      var rb := size;
      var zb := (PGSIZE - rb % PGSIZE) % PGSIZE;
      var pageCount := (rb + zb) / PGSIZE;
      var e := MmapEntry(nextMapId, addr, f, pageCount);
      nextMapId := nextMapId + 1;
      ghost var sup0 := vm.sup;
      LoadMapping(vm, tid, f, addr, rb, zb, now);
      ghost var g := MapRegion(f, addr, size);
      LazyCovers(sup0, tid, g, now, PageCount(g));
      BackedAppend(mmaps, e, sup0, vm.sup, tid);
      MapsAppend(mmaps, e, vm.handles);
      mmaps := mmaps + [e];
      return e.id;
    }

    /** do_free_mmap_entry: for each page of the mapping, in order, the
        page's dirty contents are written back, its frame and mapping
        released and its record deleted (hash_delete), which leaves its
        swap slot in use (see TeardownLeaks). It needs
        every page of the mapping to be coherent (mapped exactly when
        resident) and every record there to name a file. Closing the
        private handle belongs to the file system and is not part of this
        model. */
    method DoFreeMmapEntry(e: MmapEntry)
      requires Valid() && e.addr != 0 && e.addr % PGSIZE == 0 && Releasable(e) && Apart(mmaps, e, tid)
      modifies vm`frames, vm`free, vm`sup, vm`pagedir, vm`inodes, vm.swap`used
      ensures Valid()
      ensures vm.State() == Teardown(old(vm.State()), vm.handles, vm.mem, tid, e.addr, e.pageCount)
    {
      BackedTorn(mmaps, e, vm.State(), vm.handles, vm.mem, tid);
      UnmapPages(vm, tid, e.addr, e.pageCount);
    }

    /** Every page of mapping e has a record naming a file, as
        do_free_mmap_entry needs: it writes a dirty page back to the
        record's file. */
    ghost predicate Releasable(e: MmapEntry)
      reads this, vm
    {
      forall k :: MapCovers(tid, e.addr, e.pageCount, k) ==> k in vm.sup && vm.sup[k].file.Some?
    }

    /** The search of syscall_munmap: the position of the first mapping
        with id. */
    method FindMapping(id: int) returns (r: Option<nat>)
      ensures r == FindMap(mmaps, id)
    {
      var i := 0;
      while i < |mmaps|
        invariant 0 <= i <= |mmaps|
        invariant forall j :: 0 <= j < i ==> mmaps[j].id != id
      {
        if mmaps[i].id == id {
          assert FindMap(mmaps, id) == Some(i);
          return Some(i);
        }
        i := i + 1;
      }
      return None;
    }

    /** syscall_munmap: the first mapping with id leaves the list and is
        torn down, after which no mapping has that id; an unknown id
        changes nothing. */
    method Munmap(id: int)
      requires Valid()
      modifies this`mmaps, vm`frames, vm`free, vm`sup, vm`pagedir, vm`inodes, vm.swap`used
      ensures Valid()
      ensures FindMap(old(mmaps), id).None? ==> mmaps == old(mmaps) && vm.State() == old(vm.State())
      ensures FindMap(old(mmaps), id).Some? ==>
        var i := FindMap(old(mmaps), id).value; var e := old(mmaps)[i];
        mmaps == old(mmaps)[..i] + old(mmaps)[i + 1..] && FindMap(mmaps, id).None?
        && vm.State() == Teardown(old(vm.State()), vm.handles, vm.mem, tid, e.addr, e.pageCount)
    {
      var r := FindMapping(id);
      if r.None? {
        return;
      }
      var e := RemoveMapping(r.value);
      DoFreeMmapEntry(e);
    }

    /** list_remove of the mapping at i, which syscall_munmap returns. */
    method RemoveMapping(i: nat) returns (e: MmapEntry)
      requires Valid() && i < |mmaps|
      modifies this`mmaps
      ensures Valid() && e == old(mmaps)[i] && mmaps == old(mmaps)[..i] + old(mmaps)[i + 1..]
      ensures FindMap(mmaps, e.id).None? && Releasable(e) && Apart(mmaps, e, tid)
    {
      e := mmaps[i];
      BackedRemove(mmaps, i, vm.sup, tid);
      FindMapRemove(mmaps, i);
      DropKeeps(mmaps, i);
      mmaps := mmaps[..i] + mmaps[i + 1..];
    }

    /** check_mmap_overlaps: false for the null address or a negative
        size, otherwise true exactly when no page it probes has a record
        or a mapping. */
    method CheckMmapOverlaps(addr: Addr, size: int) returns (ok: bool)
      ensures ok <==> addr != 0 && size >= 0 && NoOverlap(vm.sup, vm.pagedir, tid, addr, size)
    {
      if addr == 0 || size < 0 {
        return false;
      }
      var a := addr;
      var left := size;
      ghost var m: nat := 0;
      while left >= 0
        invariant a == addr + m * PGSIZE && left == size - m * PGSIZE
        invariant forall j: nat :: j < m ==>
          PageKey(tid, RoundDown(addr + j * PGSIZE)) !in vm.sup && PageKey(tid, RoundDown(addr + j * PGSIZE)) !in vm.pagedir
        decreases left + PGSIZE
      {
        if SupTableFind(vm.sup, tid, a).Some? || PageKey(tid, RoundDown(a)) in vm.pagedir {
          return false;
        }
        a := a + PGSIZE;
        left := left - PGSIZE;
        m := m + 1;
      }
      forall j: nat | j * PGSIZE <= size
        ensures PageKey(tid, RoundDown(addr + j * PGSIZE)) !in vm.sup && PageKey(tid, RoundDown(addr + j * PGSIZE)) !in vm.pagedir
      {
        assert j * PGSIZE < m * PGSIZE;
      }
      return true;
    }
  }
}
