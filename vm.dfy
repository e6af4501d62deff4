/** The virtual-memory manager of project 3 (vm/page.c, vm/frame.c): the
    per-thread supplemental page tables, the global frame table with its
    eviction order, and the page-fault paths that fill a frame from a file,
    from swap or as a fresh stack page.

    Hardware and allocators are abstract state: the page directories are
    one map from (thread, user page) to the installed kernel page, the user
    pool of palloc is the set `free` of kernel pages, the bytes of every
    user-pool page are `mem`, and the files are handles bound to inodes
    whose contents are byte sequences. */
module Vm {
  import opened Wrappers
  import opened Bytes
  import opened Swap

  type Tid = int
  type Addr = nat
  type Handle = nat
  type InodeId = nat

  /** PHYS_BASE (threads/vaddr.h): user addresses lie below it. */
  const PHYS_BASE: nat := 0xC000_0000
  /** NOT_IN_SWAP (vm/swap.h) */
  const NOT_IN_SWAP: int := -1

  predicate IsKernelAddr(a: Addr)
  {
    a >= PHYS_BASE
  }

  /** pg_round_down */
  function RoundDown(a: Addr): (r: Addr)
    ensures r % PGSIZE == 0 && r <= a < r + PGSIZE
  {
    a - a % PGSIZE
  }

  /** Pointers and esp are 32-bit unsigned values. */
  const UINT32_LIMIT: nat := 0x1_0000_0000

  /** (uint32_t) esp - 32: the lowest address try_get_page accepts as a
      stack access, wrapping around below zero. */
  function StackLimit(esp: nat): (r: nat)
    requires esp < UINT32_LIMIT
    ensures r < UINT32_LIMIT
    ensures esp >= 32 ==> r == esp - 32
    ensures esp < 32 ==> r == esp + UINT32_LIMIT - 32
  {
    (esp - 32) % UINT32_LIMIT
  }

  /** A supplemental page table is per thread; the tables of all threads
      are one map keyed by the owning thread and the page address. */
  datatype PageKey = PageKey(tid: Tid, page: Addr)

  /** sup_page_table_entry_t, without its hash element and lock */
  datatype SupEntry = SupEntry(
    addr: Addr,
    accessTime: nat,
    swapIdx: int,
    fromFile: bool,
    file: Option<Handle>,
    ofs: nat,
    readBytes: nat,
    zeroBytes: nat,
    writable: bool,
    isMmap: bool)

  /** frame_table_entry_t: the kernel page, its owner and the record of
      the user page it holds. */
  datatype FrameEntry = FrameEntry(frameAddr: Addr, owner: Tid, supKey: PageKey)

  /** One page-directory entry: the kernel page a user page maps to, its
      writable bit and the dirty bit the hardware sets. */
  datatype Pte = Pte(kpage: Addr, writable: bool, dirty: bool)

  /** What a page-fault path reports: true, false, or that the thread was
      terminated with exit status -1 (swap device full). */
  datatype Status = Success | Failure | Killed

  /** new_sup_table_entry (malloc does not fail here). */
  function NewSupEntry(addr: Addr, accessTime: nat): (e: SupEntry)
    ensures e.addr == RoundDown(addr) && e.accessTime == accessTime
    ensures e.swapIdx == NOT_IN_SWAP && !e.fromFile && e.file.None? && !e.writable && !e.isMmap
    ensures e.ofs == 0 && e.readBytes == 0 && e.zeroBytes == 0
  {
    SupEntry(RoundDown(addr), accessTime, NOT_IN_SWAP, false, None, 0, 0, 0, false, false)
  }

  /** A well-formed record: filed under its own page-aligned address, with
      a swap slot that is either absent or a run inside the device, at most
      one page of file bytes and zeros, and a file when it loads from one. */
  predicate EntryOk(key: PageKey, e: SupEntry, nSectors: nat)
  {
    e.addr == key.page && key.page % PGSIZE == 0
    && (e.swapIdx == NOT_IN_SWAP || (0 <= e.swapIdx && e.swapIdx + SECTORS_PER_PAGE <= nSectors))
    && e.readBytes + e.zeroBytes <= PGSIZE
    && (e.fromFile ==> e.file.Some?)
  }

  /** A fresh record is well formed under the key of its rounded address. */
  lemma NewSupEntryOk(t: Tid, addr: Addr, accessTime: nat, nSectors: nat)
    ensures EntryOk(PageKey(t, RoundDown(addr)), NewSupEntry(addr, accessTime), nSectors)
  {
  }

  /** sup_table_find on thread t's table: NULL for the null address,
      otherwise the record of the page the address lies in. */
  function SupTableFind(sup: map<PageKey, SupEntry>, t: Tid, a: Addr): (r: Option<SupEntry>)
    ensures r.Some? <==> a != 0 && PageKey(t, RoundDown(a)) in sup
    ensures r.Some? ==> r.value == sup[PageKey(t, RoundDown(a))]
  {
    if a == 0 then None
    else if PageKey(t, RoundDown(a)) in sup then Some(sup[PageKey(t, RoundDown(a))])
    else None
  }

  /** Any two non-null addresses of one page find the same record, and in a
      well-formed table that record carries the page's address. */
  lemma SupTableFindPage(sup: map<PageKey, SupEntry>, t: Tid, a: Addr, b: Addr, n: nat)
    requires a != 0 && b != 0 && RoundDown(a) == RoundDown(b)
    requires forall k :: k in sup ==> EntryOk(k, sup[k], n)
    ensures SupTableFind(sup, t, a) == SupTableFind(sup, t, b)
    ensures SupTableFind(sup, t, a).Some? ==> SupTableFind(sup, t, a).value.addr == RoundDown(a)
  {
  }

  /** The three keys of frame_access_time_less, most significant first. */
  datatype EvictionKey = EvictionKey(readOnly: nat, kernel: nat, accessTime: nat)

  function KeyOf(e: SupEntry): EvictionKey
  {
    EvictionKey(if e.writable then 0 else 1, if IsKernelAddr(e.addr) then 1 else 0, e.accessTime)
  }

  predicate LexLess(a: EvictionKey, b: EvictionKey)
  {
    a.readOnly < b.readOnly
    || (a.readOnly == b.readOnly && a.kernel < b.kernel)
    || (a.readOnly == b.readOnly && a.kernel == b.kernel && a.accessTime < b.accessTime)
  }

  /** frame_access_time_less on the records of two frames: writable pages
      first, then user pages before kernel pages, then the older access. */
  function FrameLess(a: SupEntry, b: SupEntry): (r: bool)
    ensures r <==> LexLess(KeyOf(a), KeyOf(b))
  {
    if a.writable != b.writable then a.writable
    else if IsKernelAddr(a.addr) != IsKernelAddr(b.addr) then !IsKernelAddr(a.addr)
    else a.accessTime < b.accessTime
  }

  /** FrameLess is a strict weak order, which is what list_min needs. */
  lemma FrameLessStrictWeak(a: SupEntry, b: SupEntry, c: SupEntry)
    ensures !FrameLess(a, a)
    ensures FrameLess(a, b) && FrameLess(b, c) ==> FrameLess(a, c)
    ensures FrameLess(a, c) ==> FrameLess(a, b) || FrameLess(b, c)
  {
  }

  /** Position m holds the first minimum of s: nothing is below it, and
      everything before it is above it. */
  predicate IsFirstMin(s: seq<SupEntry>, m: nat)
  {
    m < |s|
    && (forall j :: 0 <= j < |s| ==> !FrameLess(s[j], s[m]))
    && (forall j :: 0 <= j < m ==> FrameLess(s[m], s[j]))
  }

  lemma FirstMinUnique(s: seq<SupEntry>, m1: nat, m2: nat)
    requires IsFirstMin(s, m1) && IsFirstMin(s, m2)
    ensures m1 == m2
  {
    assert !FrameLess(s[m2], s[m1]);
    assert !FrameLess(s[m1], s[m2]);
  }

  /** list_min (lib/kernel/list.c) under frame_access_time_less. */
  method ListMin(s: seq<SupEntry>) returns (m: nat)
    requires |s| > 0
    ensures IsFirstMin(s, m)
  {
    m := 0;
    var i := 1;
    while i < |s|
      invariant 1 <= i <= |s| && m < i
      invariant forall j :: 0 <= j < i ==> !FrameLess(s[j], s[m])
      invariant forall j :: 0 <= j < m ==> FrameLess(s[m], s[j])
    {
      if FrameLess(s[i], s[m]) {
        forall j | 0 <= j < i
          ensures !FrameLess(s[j], s[i]) && (j < i ==> FrameLess(s[i], s[j]))
        {
          FrameLessStrictWeak(s[j], s[i], s[m]);
          FrameLessStrictWeak(s[i], s[m], s[j]);
          FrameLessStrictWeak(s[i], s[j], s[m]);
        }
        m := i;
      }
      i := i + 1;
    }
  }

  /** frame_table_foreach_if on a list of values: the entries are visited
      in order, and the walk stops at the first one for which both the test
      and the action answer true. `acted` lists the visited indexes whose
      test answered true, that is, those the action ran on. */
  method ForeachIf<T>(s: seq<T>, test: T -> bool, action: T -> bool) returns (stop: Option<nat>, acted: seq<nat>)
    ensures stop.Some? ==> stop.value < |s| && test(s[stop.value]) && action(s[stop.value])
    ensures stop.Some? ==> forall j :: 0 <= j < stop.value ==> !(test(s[j]) && action(s[j]))
    ensures stop.None? ==> forall j :: 0 <= j < |s| ==> !(test(s[j]) && action(s[j]))
    ensures forall j :: j in acted <==> 0 <= j < |s| && test(s[j]) && (stop.None? || j <= stop.value)
    ensures forall a, b :: 0 <= a < b < |acted| ==> acted[a] < acted[b]
  {
    acted := [];
    var i := 0;
    while i < |s|
      invariant 0 <= i <= |s|
      invariant forall j :: 0 <= j < i ==> !(test(s[j]) && action(s[j]))
      invariant forall j :: j in acted <==> 0 <= j < i && test(s[j])
      invariant forall a, b :: 0 <= a < b < |acted| ==> acted[a] < acted[b] < i
      invariant forall a :: 0 <= a < |acted| ==> acted[a] < i
    {
      if test(s[i]) {
        acted := acted + [i];
        if action(s[i]) {
          return Some(i), acted;
        }
      }
      i := i + 1;
    }
    return None, acted;
  }

  /** The first frame holding kernel page k. */
  function FrameIndex(frames: seq<FrameEntry>, k: Addr): (r: Option<nat>)
    ensures r.Some? ==> (r.value < |frames| && frames[r.value].frameAddr == k
      && forall j :: 0 <= j < r.value ==> frames[j].frameAddr != k)
    ensures r.None? ==> forall j :: 0 <= j < |frames| ==> frames[j].frameAddr != k
  {
    if |frames| == 0 then None
    else if frames[0].frameAddr == k then Some(0)
    else match FrameIndex(frames[1..], k)
      case None => None
      case Some(j) => Some(j + 1)
  }

  /** The records of the frames, in frame-table order. */
  function Pages(frames: seq<FrameEntry>, sup: map<PageKey, SupEntry>): (s: seq<SupEntry>)
    requires forall i :: 0 <= i < |frames| ==> frames[i].supKey in sup
    ensures |s| == |frames|
  {
    seq(|frames|, i requires 0 <= i < |frames| => sup[frames[i].supKey])
  }

  /** pagedir_is_dirty: false for an unmapped page. */
  predicate IsDirty(pagedir: map<PageKey, Pte>, key: PageKey)
  {
    key in pagedir && pagedir[key].dirty
  }

  /** The test of evict_one_frame: a victim goes back to its file, rather
      than to swap, when it is a dirty page of a memory-mapped file. The
      dirty bit is read in the page directory of the thread running the
      eviction, `cur`. */
  predicate WritesBack(pagedir: map<PageKey, Pte>, cur: Tid, e: SupEntry)
  {
    e.fromFile && e.isMmap && IsDirty(pagedir, PageKey(cur, e.addr))
  }

  /** file_read at ofs: at most n bytes, fewer at the end of the file. */
  function FileReadAt(data: seq<byte>, ofs: nat, n: nat): (r: seq<byte>)
    ensures |r| <= n
    ensures ofs + n <= |data| ==> r == data[ofs..ofs + n]
    ensures ofs >= |data| ==> r == []
  {
    if ofs >= |data| then [] else if ofs + n <= |data| then data[ofs..ofs + n] else data[ofs..]
  }

  /** file_write at ofs on a file that does not grow (the base file system
      of project 3): the bytes that fall before the end are replaced. */
  function FileWriteAt(data: seq<byte>, ofs: nat, bytes: seq<byte>): (r: seq<byte>)
    ensures |r| == |data|
    ensures forall i :: 0 <= i < |data| ==>
      r[i] == if ofs <= i < ofs + |bytes| then bytes[i - ofs] else data[i]
  {
    seq(|data|, i requires 0 <= i < |data| => if ofs <= i < ofs + |bytes| then bytes[i - ofs] else data[i])
  }

  /** What one call of evict_one_frame did, besides choosing the victim. */
  datatype EvictOutcome = WroteBack | Swapped(slot: nat) | SwapFull

  /** The user pool: free pages and frame pages are pool pages of one
      page each, no page is both, and no two frames share a page; when
      nothing is free some frame can be evicted. */
  predicate PoolOk(free: set<Addr>, frames: seq<FrameEntry>, mem: map<Addr, seq<byte>>)
  {
    0 !in mem
    && free <= mem.Keys
    && (forall k :: k in mem ==> |mem[k]| == PGSIZE)
    && (forall i :: 0 <= i < |frames| ==> frames[i].frameAddr in mem && frames[i].frameAddr !in free)
    && (forall i, j :: 0 <= i < j < |frames| ==> frames[i].frameAddr != frames[j].frameAddr)
    && (free != {} || |frames| > 0)
  }

  predicate TableOk(sup: map<PageKey, SupEntry>, nSectors: nat)
  {
    forall k :: k in sup ==> EntryOk(k, sup[k], nSectors)
  }

  /** Every frame holds a record of the tables. */
  predicate FramesBound(frames: seq<FrameEntry>, sup: map<PageKey, SupEntry>)
  {
    forall i :: 0 <= i < |frames| ==> frames[i].supKey in sup
  }

  predicate PagedirOk(pagedir: map<PageKey, Pte>, mem: map<Addr, seq<byte>>)
  {
    forall k :: k in pagedir ==> pagedir[k].kpage in mem
  }

  predicate FilesOk(sup: map<PageKey, SupEntry>, handles: map<Handle, InodeId>, inodes: map<InodeId, seq<byte>>)
  {
    (forall k :: k in sup && sup[k].file.Some? ==> sup[k].file.value in handles)
    && (forall h :: h in handles ==> handles[h] in inodes)
  }

  /** A free page taken for a new frame at the back of the table. */
  lemma PoolTake(free: set<Addr>, frames: seq<FrameEntry>, mem: map<Addr, seq<byte>>, f: FrameEntry)
    requires PoolOk(free, frames, mem) && f.frameAddr in free
    ensures PoolOk(free - {f.frameAddr}, frames + [f], mem)
  {
  }

  /** A frame leaves the table and its page becomes free. */
  lemma PoolRelease(free: set<Addr>, frames: seq<FrameEntry>, mem: map<Addr, seq<byte>>, i: nat)
    requires PoolOk(free, frames, mem) && i < |frames|
    ensures PoolOk(free + {frames[i].frameAddr}, frames[..i] + frames[i + 1..], mem)
  {
    var rest := frames[..i] + frames[i + 1..];
    assert forall j :: 0 <= j < |rest| ==> rest[j] == if j < i then frames[j] else frames[j + 1];
  }

  /** A frame rebound to another owner and record keeps its page. */
  lemma PoolRebind(free: set<Addr>, frames: seq<FrameEntry>, mem: map<Addr, seq<byte>>, i: nat, owner: Tid, key: PageKey)
    requires PoolOk(free, frames, mem) && i < |frames|
    ensures PoolOk(free, frames[i := FrameEntry(frames[i].frameAddr, owner, key)], mem)
  {
  }

  /** How eviction may change a record: not at all, or it stops being a
      file page and may get a swap slot. */
  predicate Demoted(a: SupEntry, b: SupEntry)
  {
    b == a || b == a.(fromFile := false, swapIdx := b.swapIdx)
  }

  /** With distinct frame pages, the frame at i is the first with its page. */
  lemma FrameIndexOf(free: set<Addr>, frames: seq<FrameEntry>, mem: map<Addr, seq<byte>>, i: nat)
    requires PoolOk(free, frames, mem) && i < |frames|
    ensures FrameIndex(frames, frames[i].frameAddr) == Some(i)
  {
  }

  function Min(a: nat, b: nat): nat
  {
    if a <= b then a else b
  }

  /** The file bytes of page j of a region whose first `rb` bytes come
      from the file: what is left of them after j pages, at most a page. */
  function PageRead(rb: nat, j: nat): (r: nat)
    ensures r <= PGSIZE
  {
    Min(rb - Min(rb, j * PGSIZE), PGSIZE)
  }

  /** Full pages first, then the partial page, then none. */
  lemma PageReadShape(rb: nat, j: nat)
    ensures (j + 1) * PGSIZE <= rb ==> PageRead(rb, j) == PGSIZE
    ensures j * PGSIZE <= rb < (j + 1) * PGSIZE ==> PageRead(rb, j) == rb - j * PGSIZE
    ensures rb <= j * PGSIZE ==> PageRead(rb, j) == 0
  {
  }

  /** One step of lazy_load's loop: while bytes remain, the page takes
      min(read, PGSIZE) file bytes and the zeros to fill it, and the zero
      count never goes below zero. */
  lemma LazyStep(readBytes: nat, zeroBytes: nat, j: nat, rb: nat, zb: nat)
    requires (readBytes + zeroBytes) % PGSIZE == 0
    requires j * PGSIZE + rb + zb == readBytes + zeroBytes && rb + zb > 0
    requires rb == readBytes - Min(readBytes, j * PGSIZE)
    ensures var pr := if rb < PGSIZE then rb else PGSIZE;
      pr == PageRead(readBytes, j) && zb >= PGSIZE - pr
      && rb - pr == readBytes - Min(readBytes, (j + 1) * PGSIZE)
      && Min(readBytes, j * PGSIZE) + pr == Min(readBytes, (j + 1) * PGSIZE)
    ensures j < PagesIn(readBytes + zeroBytes)
  {
    var q := (readBytes + zeroBytes) / PGSIZE;
    assert rb + zb == (q - j) * PGSIZE;
    assert q - j >= 1;
    PagesInDiv(readBytes + zeroBytes);
  }

  /** Page j of a region that starts on a page boundary starts on one too. */
  lemma {:induction false} AlignedAt(upage: nat, j: nat)
    requires upage % PGSIZE == 0
    ensures (upage + j * PGSIZE) % PGSIZE == 0
  {
    if j > 0 {
      AlignedAt(upage, j - 1);
      assert upage + j * PGSIZE == (upage + (j - 1) * PGSIZE) + PGSIZE;
    }
  }

  /** The record lazy_load builds at page j is LazyEntry j. */
  lemma LazyEntryIs(g: Region, now: nat, j: nat, page: Addr, offset: nat, pageRead: nat)
    requires page == g.upage + j * PGSIZE && page % PGSIZE == 0
    requires offset == g.ofs + Min(g.readBytes, j * PGSIZE) && pageRead == PageRead(g.readBytes, j)
    ensures NewSupEntry(page, now).(fromFile := true, file := Some(g.file), readBytes := pageRead,
      zeroBytes := PGSIZE - pageRead, writable := g.writable, ofs := offset, isMmap := g.isMmap)
      == LazyEntry(g, now, j)
  {
  }

  lemma PagesOfTotal(total: nat, j: nat)
    requires total == j * PGSIZE
    ensures PagesIn(total) == j
  {
    assert total / PGSIZE == j;
    PagesInDiv(total);
  }

  /** The number of whole pages in a byte count. */
  function PagesIn(bytes: nat): nat
  {
    if bytes < PGSIZE then 0 else 1 + PagesIn(bytes - PGSIZE)
  }

  /** PagesIn is the quotient by PGSIZE. */
  lemma {:induction false} PagesInDiv(bytes: nat)
    ensures PagesIn(bytes) == bytes / PGSIZE
  {
    if bytes >= PGSIZE {
      PagesInDiv(bytes - PGSIZE);
      assert (bytes - PGSIZE) / PGSIZE == bytes / PGSIZE - 1;
    }
  }

  /** One more page registered by lazy_load. */
  lemma LazyAdvance(sup0: map<PageKey, SupEntry>, sup: map<PageKey, SupEntry>, t: Tid, g: Region, now: nat, j: nat)
    requires sup == sup0 + LazyPages(t, g, now, j) && FreshPages(sup0, t, g, j) && LazyKey(t, g, j) !in sup0
    ensures FreshPages(sup0, t, g, j + 1)
    ensures sup[LazyKey(t, g, j) := LazyEntry(g, now, j)] == sup0 + LazyPages(t, g, now, j + 1)
  {
  }

  /** A region of a file registered page by page by lazy_load. */
  datatype Region = Region(file: Handle, ofs: nat, upage: Addr, readBytes: nat, zeroBytes: nat, writable: bool, isMmap: bool)

  function PageCount(g: Region): nat
  {
    PagesIn(g.readBytes + g.zeroBytes)
  }

  function LazyKey(t: Tid, g: Region, j: nat): PageKey
  {
    PageKey(t, g.upage + j * PGSIZE)
  }

  /** The record lazy_load creates for page j of the region. */
  function LazyEntry(g: Region, now: nat, j: nat): (e: SupEntry)
    ensures e.readBytes + e.zeroBytes == PGSIZE && e.fromFile && e.file == Some(g.file)
  {
    SupEntry(g.upage + j * PGSIZE, now, NOT_IN_SWAP, true, Some(g.file), g.ofs + Min(g.readBytes, j * PGSIZE),
      PageRead(g.readBytes, j), PGSIZE - PageRead(g.readBytes, j), g.writable, g.isMmap)
  }

  /** The records of the first m pages of the region. */
  function LazyPages(t: Tid, g: Region, now: nat, m: nat): map<PageKey, SupEntry>
  {
    if m == 0 then map[] else LazyPages(t, g, now, m - 1)[LazyKey(t, g, m - 1) := LazyEntry(g, now, m - 1)]
  }

  /** None of the first m pages of the region has a record in sup. */
  predicate FreshPages(sup: map<PageKey, SupEntry>, t: Tid, g: Region, m: nat)
  {
    m == 0 || (FreshPages(sup, t, g, m - 1) && LazyKey(t, g, m - 1) !in sup)
  }

  lemma {:induction false} FreshPagesAt(sup: map<PageKey, SupEntry>, t: Tid, g: Region, m: nat, j: nat)
    requires FreshPages(sup, t, g, m) && j < m
    ensures LazyKey(t, g, j) !in sup
  {
    if j < m - 1 {
      FreshPagesAt(sup, t, g, m - 1, j);
    }
  }

  /** The first m pages' records lie below page m of the region. */
  lemma {:induction false} LazyPagesBelow(t: Tid, g: Region, now: nat, m: nat)
    ensures forall k :: k in LazyPages(t, g, now, m) ==> k.page < g.upage + m * PGSIZE
  {
    if m > 0 {
      LazyPagesBelow(t, g, now, m - 1);
    }
  }

  /** Page j of the first m pages carries LazyEntry j. */
  lemma {:induction false} LazyPagesAt(t: Tid, g: Region, now: nat, m: nat, j: nat)
    requires j < m
    ensures LazyKey(t, g, j) in LazyPages(t, g, now, m)
    ensures LazyPages(t, g, now, m)[LazyKey(t, g, j)] == LazyEntry(g, now, j)
  {
    if j < m - 1 {
      LazyPagesAt(t, g, now, m - 1, j);
    }
  }

  /** Sector i lies in the swap slot of a record of thread t. */
  predicate SwapCovered(sup: map<PageKey, SupEntry>, t: Tid, i: int)
  {
    exists k :: k in sup && k.tid == t && sup[k].swapIdx != NOT_IN_SWAP && sup[k].swapIdx <= i < sup[k].swapIdx + SECTORS_PER_PAGE
  }

  /** Sector i lies in the swap slot of one of the records ks. */
  predicate SwapCoveredBy(sup: map<PageKey, SupEntry>, ks: set<PageKey>, i: int)
  {
    exists k :: k in ks && k in sup && sup[k].swapIdx != NOT_IN_SWAP && sup[k].swapIdx <= i < sup[k].swapIdx + SECTORS_PER_PAGE
  }

  lemma CoveredByAdd(sup: map<PageKey, SupEntry>, ks: set<PageKey>, k: PageKey)
    ensures forall i :: SwapCoveredBy(sup, ks + {k}, i) <==> (SwapCoveredBy(sup, ks, i)
      || (k in sup && sup[k].swapIdx != NOT_IN_SWAP && sup[k].swapIdx <= i < sup[k].swapIdx + SECTORS_PER_PAGE))
  {
  }

  /** One more record of ks whose swap slot (if any) is released. */
  lemma ReleaseStep(used0: seq<bool>, used: seq<bool>, used': seq<bool>, sup: map<PageKey, SupEntry>, ks: set<PageKey>, k: PageKey)
    requires |used| == |used0| && k in sup && (sup[k].swapIdx == NOT_IN_SWAP || sup[k].swapIdx >= 0)
    requires forall i :: 0 <= i < |used| ==> used[i] == (used0[i] && !SwapCoveredBy(sup, ks, i))
    requires used' == if sup[k].swapIdx != NOT_IN_SWAP then SetRun(used, sup[k].swapIdx, false) else used
    ensures |used'| == |used0|
    ensures forall i :: 0 <= i < |used'| ==> used'[i] == (used0[i] && !SwapCoveredBy(sup, ks + {k}, i))
  {
    CoveredByAdd(sup, ks, k);
  }

  /** Once ks holds every record of t, the two notions agree. */
  lemma CoveredByAll(sup: map<PageKey, SupEntry>, ks: set<PageKey>, t: Tid)
    requires forall k :: k in ks ==> k.tid == t
    requires forall k :: k in sup && k.tid == t ==> k in ks
    ensures forall i :: SwapCoveredBy(sup, ks, i) <==> SwapCovered(sup, t, i)
  {
  }

  /** Removing a record no frame holds. */
  lemma RecordRemove(frames: seq<FrameEntry>, sup: map<PageKey, SupEntry>, handles: map<Handle, InodeId>,
                     inodes: map<InodeId, seq<byte>>, n: nat, key: PageKey)
    requires TableOk(sup, n) && FramesBound(frames, sup) && FilesOk(sup, handles, inodes)
    requires forall i :: 0 <= i < |frames| ==> frames[i].supKey != key
    ensures TableOk(sup - {key}, n) && FramesBound(frames, sup - {key}) && FilesOk(sup - {key}, handles, inodes)
  {
  }

  /** Adding a well-formed record under a new key. */
  lemma RecordInsert(frames: seq<FrameEntry>, sup: map<PageKey, SupEntry>, handles: map<Handle, InodeId>,
                     inodes: map<InodeId, seq<byte>>, n: nat, key: PageKey, e: SupEntry)
    requires TableOk(sup, n) && FramesBound(frames, sup) && FilesOk(sup, handles, inodes)
    requires EntryOk(key, e, n) && (e.file.Some? ==> e.file.value in handles)
    ensures TableOk(sup[key := e], n) && FramesBound(frames, sup[key := e]) && FilesOk(sup[key := e], handles, inodes)
  {
  }

  /** Replacing one record by a well-formed one keeps the tables, the
      frame bindings and the file references well formed. */
  lemma RecordReplace(frames: seq<FrameEntry>, sup: map<PageKey, SupEntry>, handles: map<Handle, InodeId>,
                      inodes: map<InodeId, seq<byte>>, n: nat, key: PageKey, e: SupEntry)
    requires TableOk(sup, n) && FramesBound(frames, sup) && FilesOk(sup, handles, inodes)
    requires key in sup && EntryOk(key, e, n) && (e.file.Some? ==> e.file.value in handles)
    ensures TableOk(sup[key := e], n) && FramesBound(frames, sup[key := e]) && FilesOk(sup[key := e], handles, inodes)
  {
  }

  /** A pool page overwritten with a full page of bytes. */
  lemma MemWrite(free: set<Addr>, frames: seq<FrameEntry>, mem: map<Addr, seq<byte>>, pagedir: map<PageKey, Pte>,
                 k: Addr, page: seq<byte>)
    requires PoolOk(free, frames, mem) && PagedirOk(pagedir, mem) && k in mem && |page| == PGSIZE
    ensures PoolOk(free, frames, mem[k := page]) && PagedirOk(pagedir, mem[k := page])
  {
  }

  /** The file bytes and then the zeros written over the start of a page. */
  lemma TwoWrites(p: seq<byte>, data: seq<byte>, z: seq<byte>)
    requires |data| + |z| <= |p|
    ensures var q := p[..0] + data + p[|data|..];
      q[..|data|] + z + q[|data| + |z|..] == data + z + p[|data| + |z|..]
  {
    var q := p[..0] + data + p[|data|..];
    assert q[..|data|] == data;
    assert q[|data| + |z|..] == p[|data| + |z|..];
  }

  /** No frame of the table holds the record filed under key. */
  predicate NoFrameHolds(frames: seq<FrameEntry>, key: PageKey)
  {
    forall j :: 0 <= j < |frames| ==> frames[j].supKey != key
  }

  /** Dropping the only frame that holds key leaves none that does. */
  lemma DropFrame(frames: seq<FrameEntry>, i: nat, key: PageKey)
    requires i < |frames| && forall j :: 0 <= j < |frames| && j != i ==> frames[j].supKey != key
    ensures NoFrameHolds(frames[..i] + frames[i + 1..], key)
  {
    var rest := frames[..i] + frames[i + 1..];
    assert forall j :: 0 <= j < |rest| ==> rest[j] == if j < i then frames[j] else frames[j + 1];
  }

  /** key's page is mapped exactly when a frame holds key, and then to that
      frame, which the page's thread owns. */
  predicate CoherentAt(frames: seq<FrameEntry>, pagedir: map<PageKey, Pte>, key: PageKey)
  {
    (key in pagedir ==> exists i :: 0 <= i < |frames| && frames[i].supKey == key && frames[i].frameAddr == pagedir[key].kpage)
    && forall i :: 0 <= i < |frames| && frames[i].supKey == key ==>
      frames[i].owner == key.tid && key in pagedir && pagedir[key].kpage == frames[i].frameAddr
  }

  /** The frame a mapped, coherent page is mapped to is the only frame
      holding the page. */
  lemma CoherentFrame(frames: seq<FrameEntry>, pagedir: map<PageKey, Pte>, key: PageKey)
    requires forall i, j :: 0 <= i < j < |frames| ==> frames[i].frameAddr != frames[j].frameAddr
    requires key in pagedir && CoherentAt(frames, pagedir, key)
    ensures FrameIndex(frames, pagedir[key].kpage).Some?
    ensures var i := FrameIndex(frames, pagedir[key].kpage).value;
      frames[i].supKey == key && forall j :: 0 <= j < |frames| && j != i ==> frames[j].supKey != key
  {
    var w :| 0 <= w < |frames| && frames[w].supKey == key && frames[w].frameAddr == pagedir[key].kpage;
    assert FrameIndex(frames, pagedir[key].kpage).value == w;
  }

  /** s with entry i taken out holds every other entry, in order. */
  lemma DropKeeps<T>(s: seq<T>, i: nat)
    requires i < |s|
    ensures |s[..i] + s[i + 1..]| == |s| - 1
    ensures forall j :: 0 <= j < |s| - 1 ==>
      (s[..i] + s[i + 1..])[j] == if j < i then s[j] else s[j + 1]
  {
  }

  /** Dropping the frame of key keeps every other page coherent. */
  lemma DropCoherent(frames: seq<FrameEntry>, pagedir: map<PageKey, Pte>, key: PageKey, i: nat, q: PageKey)
    requires i < |frames| && frames[i].supKey == key && q != key && CoherentAt(frames, pagedir, q)
    ensures CoherentAt(frames[..i] + frames[i + 1..], pagedir - {key}, q)
  {
    var fr := frames[..i] + frames[i + 1..];
    DropKeeps(frames, i);
    if q in pagedir {
      var v :| 0 <= v < |frames| && frames[v].supKey == q && frames[v].frameAddr == pagedir[q].kpage;
      if v < i { assert fr[v] == frames[v]; } else { assert fr[v - 1] == frames[v]; }
    }
  }

  /** Dropping the only frame of key keeps exactly the frames of other pages. */
  lemma DropMembers(frames: seq<FrameEntry>, key: PageKey, i: nat)
    requires i < |frames| && frames[i].supKey == key
    requires forall j :: 0 <= j < |frames| && j != i ==> frames[j].supKey != key
    ensures forall f :: f in frames[..i] + frames[i + 1..] <==> f in frames && f.supKey != key
  {
    var fr := frames[..i] + frames[i + 1..];
    DropKeeps(frames, i);
    forall f | f in frames && f.supKey != key
      ensures f in fr
    {
      var j :| 0 <= j < |frames| && frames[j] == f;
      if j < i { assert fr[j] == f; } else { assert fr[j - 1] == f; }
    }
  }

  /** do_free_mmap_entry as written: the record of a page leaves the
      table and the swap bitmap is left as it was. */
  function UnmapRecordAsWritten(sup: map<PageKey, SupEntry>, used: seq<bool>, key: PageKey): (r: (map<PageKey, SupEntry>, seq<bool>))
    ensures r.0.Keys == sup.Keys - {key} && r.1 == used
  {
    (sup - {key}, used)
  }

  /** The record of a page leaves the table and its swap slot, if it has
      one, is released, as do_sup_table_entry_free does. */
  function UnmapRecord(sup: map<PageKey, SupEntry>, used: seq<bool>, key: PageKey): (r: (map<PageKey, SupEntry>, seq<bool>))
    requires key in sup
  {
    (sup - {key}, if sup[key].swapIdx >= 0 then SetRun(used, sup[key].swapIdx, false) else used)
  }

  /** A sector is leaked when it is marked in use and no record of any
      thread holds the run it lies in. */
  predicate Leaked(sup: map<PageKey, SupEntry>, used: seq<bool>, i: nat)
  {
    i < |used| && used[i] && forall k :: k in sup ==> !(0 <= sup[k].swapIdx <= i < sup[k].swapIdx + SECTORS_PER_PAGE)
  }

  /** A clean page of a mapping that was evicted to swap slot 0 and then
      unmapped: as written, its eight sectors stay in use with no record
      left to release them. */
  lemma UnmapAsWrittenLeaks()
    ensures var key := PageKey(1, 0x1000_0000);
      var e := SupEntry(0x1000_0000, 0, 0, false, Some(3), 0, PGSIZE, 0, true, true);
      var r := UnmapRecordAsWritten(map[key := e], SetRun(seq(SECTORS_PER_PAGE, _ => false), 0, true), key);
      forall i :: 0 <= i < SECTORS_PER_PAGE ==> Leaked(r.0, r.1, i)
  {
  }

  /** Unmapping a page frees exactly the run of its swap slot and leaves
      every sector of a table whose slots are disjoint unleaked that was
      unleaked before. */
  lemma UnmapRecordReleases(sup: map<PageKey, SupEntry>, used: seq<bool>, key: PageKey)
    requires key in sup
    ensures var r := UnmapRecord(sup, used, key); var e := sup[key];
      r.0 == sup - {key} && |r.1| == |used|
      && (e.swapIdx >= 0 ==> RunFree(r.1, e.swapIdx) || e.swapIdx + SECTORS_PER_PAGE > |used|)
      && (forall i :: 0 <= i < |used| && !(0 <= e.swapIdx <= i < e.swapIdx + SECTORS_PER_PAGE) ==> r.1[i] == used[i])
      && (forall i :: 0 <= i < |used| && !Leaked(sup, used, i) ==> !Leaked(r.0, r.1, i))
  {
    var r := UnmapRecord(sup, used, key);
    var e := sup[key];
    forall i | 0 <= i < |used| && !Leaked(sup, used, i)
      ensures !Leaked(r.0, r.1, i)
    {
      if used[i] {
        var k :| k in sup && 0 <= sup[k].swapIdx <= i < sup[k].swapIdx + SECTORS_PER_PAGE;
        if k == key {
          assert !r.1[i];
        } else {
          assert k in r.0;
        }
      }
    }
  }

  /** The files after the write-back of key's page, when it has a record
      and a dirty mapping: the record's read_bytes, taken from the kernel
      page the page is mapped to, replace the file's bytes from its
      offset on, within the file's length. */
  function WriteBack(inodes: map<InodeId, seq<byte>>, handles: map<Handle, InodeId>, sup: map<PageKey, SupEntry>,
                     pagedir: map<PageKey, Pte>, mem: map<Addr, seq<byte>>, key: PageKey): (r: map<InodeId, seq<byte>>)
    ensures r.Keys == inodes.Keys && forall i :: i in inodes ==> |r[i]| == |inodes[i]|
    ensures !IsDirty(pagedir, key) ==> r == inodes
  {
    if key in sup && IsDirty(pagedir, key) && sup[key].file.Some? && sup[key].file.value in handles
       && handles[sup[key].file.value] in inodes && pagedir[key].kpage in mem
       && sup[key].readBytes <= |mem[pagedir[key].kpage]|
    then
      var e := sup[key];
      var ino := handles[e.file.value];
      inodes[ino := FileWriteAt(inodes[ino], e.ofs, mem[pagedir[key].kpage][..e.readBytes])]
    else inodes
  }

  /** The part of the machine the unmapping of a page changes. */
  datatype Tables = Tables(frames: seq<FrameEntry>, free: set<Addr>, sup: map<PageKey, SupEntry>,
                           pagedir: map<PageKey, Pte>, inodes: map<InodeId, seq<byte>>, used: seq<bool>)

  /** frame_free_page of kernel page k on the frame table and the pool:
      the first frame of k, if there is one, goes and k is free again. */
  function FreeFrame(frames: seq<FrameEntry>, free: set<Addr>, k: Addr): (seq<FrameEntry>, set<Addr>)
  {
    if k == 0 || FrameIndex(frames, k).None? then (frames, free)
    else
      var i := FrameIndex(frames, k).value;
      (frames[..i] + frames[i + 1..], free + {k})
  }

  /** One page of do_free_mmap_entry: without a record, nothing happens;
      with one, a dirty page is written back, the frame a mapped page is
      mapped to is freed and the mapping cleared, and the record is
      deleted from the table, its swap slot left in use as written. */
  function Unmapped(s: Tables, handles: map<Handle, InodeId>, mem: map<Addr, seq<byte>>, key: PageKey): Tables
  {
    if key !in s.sup then s
    else
      var fr := if key in s.pagedir then FreeFrame(s.frames, s.free, s.pagedir[key].kpage) else (s.frames, s.free);
      var rec := UnmapRecordAsWritten(s.sup, s.used, key);
      Tables(fr.0, fr.1, rec.0, s.pagedir - {key}, WriteBack(s.inodes, handles, s.sup, s.pagedir, mem, key), rec.1)
  }

  /** Unmapping a page changes the records and the swap bitmap as
      deleting its record as written does. */
  lemma UnmappedRecords(s: Tables, handles: map<Handle, InodeId>, mem: map<Addr, seq<byte>>, key: PageKey)
    ensures var r := Unmapped(s, handles, mem, key);
      (r.sup, r.used) == if key in s.sup then UnmapRecordAsWritten(s.sup, s.used, key) else (s.sup, s.used)
  {
  }

  /** Unmapping a page takes out its record and, if it had one, its
      mapping, and writes it back. */
  lemma UnmappedKeys(s: Tables, handles: map<Handle, InodeId>, mem: map<Addr, seq<byte>>, key: PageKey)
    ensures var r := Unmapped(s, handles, mem, key);
      r.sup == s.sup - {key} && r.pagedir == (if key in s.sup then s.pagedir - {key} else s.pagedir)
      && r.inodes == WriteBack(s.inodes, handles, s.sup, s.pagedir, mem, key)
  {
  }

  /** No two frames share a kernel page, and none is the null page. */
  predicate DistinctFrames(frames: seq<FrameEntry>)
  {
    (forall i :: 0 <= i < |frames| ==> frames[i].frameAddr != 0)
    && forall i, j :: 0 <= i < j < |frames| ==> frames[i].frameAddr != frames[j].frameAddr
  }

  /** Frames stay distinct and bound to records when the frame at i, the
      only one holding key, goes with key's record. */
  lemma DropBound(frames: seq<FrameEntry>, sup: map<PageKey, SupEntry>, key: PageKey, i: nat)
    requires i < |frames| && DistinctFrames(frames) && FramesBound(frames, sup)
    requires forall j :: 0 <= j < |frames| && j != i ==> frames[j].supKey != key
    ensures DistinctFrames(frames[..i] + frames[i + 1..]) && FramesBound(frames[..i] + frames[i + 1..], sup - {key})
  {
    DropKeeps(frames, i);
  }

  /** Unmapping a coherent page takes out its record, its mapping and its
      frame and nothing else, leaves the swap bitmap alone and writes it
      back; frames stay distinct and bound to records, and every other
      coherent page stays coherent. */
  lemma UnmappedStep(s: Tables, handles: map<Handle, InodeId>, mem: map<Addr, seq<byte>>, key: PageKey)
    requires DistinctFrames(s.frames) && FramesBound(s.frames, s.sup) && CoherentAt(s.frames, s.pagedir, key)
    ensures var r := Unmapped(s, handles, mem, key);
      r.sup == s.sup - {key} && r.pagedir == s.pagedir - {key}
      && (forall f :: f in r.frames <==> f in s.frames && f.supKey != key)
      && NoFrameHolds(r.frames, key) && DistinctFrames(r.frames) && FramesBound(r.frames, r.sup)
      && (forall q :: q != key && CoherentAt(s.frames, s.pagedir, q) ==> CoherentAt(r.frames, r.pagedir, q))
      && r.inodes == WriteBack(s.inodes, handles, s.sup, s.pagedir, mem, key)
      && r.used == s.used
  {
    var r := Unmapped(s, handles, mem, key);
    if key in s.pagedir {
      var w :| 0 <= w < |s.frames| && s.frames[w].supKey == key && s.frames[w].frameAddr == s.pagedir[key].kpage;
      var k := s.pagedir[key].kpage;
      CoherentFrame(s.frames, s.pagedir, key);
      var i := FrameIndex(s.frames, k).value;
      assert r.frames == s.frames[..i] + s.frames[i + 1..];
      DropFrame(s.frames, i, key);
      DropMembers(s.frames, key, i);
      DropBound(s.frames, s.sup, key, i);
      forall q | q != key && CoherentAt(s.frames, s.pagedir, q)
        ensures CoherentAt(r.frames, r.pagedir, q)
      {
        DropCoherent(s.frames, s.pagedir, key, i, q);
      }
    } else {
      assert NoFrameHolds(s.frames, key);
      assert s.pagedir - {key} == s.pagedir;
    }
  }

  // ---------------------------------------------------------------------
  // The paging invariant

  /** The paging invariant at key: key's page is mapped exactly when a
      frame holds it, and a record that no frame holds and that is not a
      file page has a swap slot to be read back from. try_get_page relies
      on both: it is reached for a page that is not mapped, and it loads
      every record that is not a file page from swap. */
  predicate PagedAt(frames: seq<FrameEntry>, pagedir: map<PageKey, Pte>, sup: map<PageKey, SupEntry>, key: PageKey)
  {
    CoherentAt(frames, pagedir, key)
    && (key in sup && !sup[key].fromFile && NoFrameHolds(frames, key) ==> sup[key].swapIdx != NOT_IN_SWAP)
  }

  /** The paging invariant at every key but skip. */
  ghost predicate PagedBut(frames: seq<FrameEntry>, pagedir: map<PageKey, Pte>, sup: map<PageKey, SupEntry>, skip: PageKey)
  {
    forall q :: q != skip ==> PagedAt(frames, pagedir, sup, q)
  }

  /** Every record of sup0 is still filed in sup and names the same
      file: the fault paths change a record only by demoting it or by
      moving it in from swap. */
  ghost predicate Kept(sup0: map<PageKey, SupEntry>, sup: map<PageKey, SupEntry>)
  {
    forall k :: k in sup0 ==> k in sup && sup[k].file == sup0[k].file
  }

  lemma KeptTrans(sup0: map<PageKey, SupEntry>, sup1: map<PageKey, SupEntry>, sup2: map<PageKey, SupEntry>)
    requires Kept(sup0, sup1) && Kept(sup1, sup2)
    ensures Kept(sup0, sup2)
  {
  }

  /** The paging invariant at every key. */
  ghost predicate PagedAll(frames: seq<FrameEntry>, pagedir: map<PageKey, Pte>, sup: map<PageKey, SupEntry>)
  {
    forall q :: PagedAt(frames, pagedir, sup, q)
  }

  /** A page that is not mapped is held by no frame, and its record, if
      it has one and it is not a file page, has a swap slot. */
  lemma PagedFault(frames: seq<FrameEntry>, pagedir: map<PageKey, Pte>, sup: map<PageKey, SupEntry>, key: PageKey)
    requires PagedAt(frames, pagedir, sup, key) && key !in pagedir
    ensures NoFrameHolds(frames, key)
    ensures key in sup && !sup[key].fromFile ==> sup[key].swapIdx != NOT_IN_SWAP
  {
  }

  /** A page without a record is not mapped: every mapped page is held by
      a frame, and every frame by a record. */
  lemma PagedUnrecorded(frames: seq<FrameEntry>, pagedir: map<PageKey, Pte>, sup: map<PageKey, SupEntry>, key: PageKey)
    requires PagedAt(frames, pagedir, sup, key) && FramesBound(frames, sup) && key !in sup
    ensures key !in pagedir && NoFrameHolds(frames, key)
  {
  }

  /** The invariant closes at key once key is settled: mapped to the
      only frame holding it, or held by none, unmapped and with a swap
      slot unless it is a file page. */
  lemma PagedClose(frames: seq<FrameEntry>, pagedir: map<PageKey, Pte>, sup: map<PageKey, SupEntry>, key: PageKey)
    requires PagedBut(frames, pagedir, sup, key) && PagedAt(frames, pagedir, sup, key)
    ensures PagedAll(frames, pagedir, sup)
  {
    forall q ensures PagedAt(frames, pagedir, sup, q) {
      if q != key {
        assert PagedAt(frames, pagedir, sup, q);
      }
    }
  }

  /** A page mapped to the only frame holding it, which its thread owns,
      is settled. */
  lemma PagedMapped(frames: seq<FrameEntry>, pagedir: map<PageKey, Pte>, sup: map<PageKey, SupEntry>, key: PageKey, i: nat)
    requires i < |frames| && frames[i].supKey == key && frames[i].owner == key.tid
    requires key in pagedir && pagedir[key].kpage == frames[i].frameAddr
    requires forall j :: 0 <= j < |frames| && j != i ==> frames[j].supKey != key
    ensures PagedAt(frames, pagedir, sup, key)
  {
  }

  /** A page held by no frame and not mapped is settled when its record,
      if any, is a file page or has a swap slot. */
  lemma PagedUnheld(frames: seq<FrameEntry>, pagedir: map<PageKey, Pte>, sup: map<PageKey, SupEntry>, key: PageKey)
    requires NoFrameHolds(frames, key) && key !in pagedir
    requires key in sup ==> sup[key].fromFile || sup[key].swapIdx != NOT_IN_SWAP
    ensures PagedAt(frames, pagedir, sup, key)
  {
  }

  /** A new frame for key at the back of the table leaves every other
      page as it was. */
  lemma PagedAppend(frames: seq<FrameEntry>, pagedir: map<PageKey, Pte>, sup: map<PageKey, SupEntry>, f: FrameEntry)
    requires PagedBut(frames, pagedir, sup, f.supKey)
    ensures PagedBut(frames + [f], pagedir, sup, f.supKey)
  {
    var fr := frames + [f];
    forall q | q != f.supKey
      ensures PagedAt(fr, pagedir, sup, q)
    {
      assert PagedAt(frames, pagedir, sup, q);
      if q in pagedir {
        var i :| 0 <= i < |frames| && frames[i].supKey == q && frames[i].frameAddr == pagedir[q].kpage;
        assert fr[i] == frames[i];
      }
      assert forall j :: 0 <= j < |frames| ==> fr[j] == frames[j];
    }
  }

  /** Dropping the frame at i, which holds an unmapped key, leaves every
      other page as it was. */
  lemma PagedDrop(frames: seq<FrameEntry>, pagedir: map<PageKey, Pte>, sup: map<PageKey, SupEntry>, key: PageKey, i: nat)
    requires i < |frames| && frames[i].supKey == key && key !in pagedir
    requires PagedBut(frames, pagedir, sup, key)
    ensures PagedBut(frames[..i] + frames[i + 1..], pagedir, sup, key)
  {
    var fr := frames[..i] + frames[i + 1..];
    DropKeeps(frames, i);
    assert pagedir - {key} == pagedir;
    forall q | q != key
      ensures PagedAt(fr, pagedir, sup, q)
    {
      assert PagedAt(frames, pagedir, sup, q);
      DropCoherent(frames, pagedir, key, i, q);
      if NoFrameHolds(fr, q) {
        forall j | 0 <= j < |frames|
          ensures frames[j].supKey != q
        {
          if j < i { assert fr[j] == frames[j]; } else if j > i { assert fr[j - 1] == frames[j]; }
        }
      }
    }
  }

  /** Mapping key's page, or changing key's record, leaves every other
      page as it was. */
  lemma PagedTouch(frames: seq<FrameEntry>, pagedir: map<PageKey, Pte>, sup: map<PageKey, SupEntry>,
                   pagedir': map<PageKey, Pte>, sup': map<PageKey, SupEntry>, key: PageKey)
    requires PagedBut(frames, pagedir, sup, key)
    requires forall q :: q != key ==> (q in pagedir' <==> q in pagedir) && (q in pagedir ==> pagedir'[q] == pagedir[q])
    requires forall q :: q != key ==> (q in sup' <==> q in sup) && (q in sup ==> sup'[q] == sup[q])
    ensures PagedBut(frames, pagedir', sup', key)
  {
    forall q | q != key
      ensures PagedAt(frames, pagedir', sup', q)
    {
      assert PagedAt(frames, pagedir, sup, q);
    }
  }

  /** Eviction of the page w held by frame v (not key), followed by the
      rebinding of that frame to key: w is no longer mapped and keeps a
      way back (a file page, or a swap slot), and every other page is as
      it was. */
  lemma PagedRebind(frames: seq<FrameEntry>, pagedir: map<PageKey, Pte>, sup: map<PageKey, SupEntry>,
                    pagedir': map<PageKey, Pte>, sup': map<PageKey, SupEntry>, v: nat, f: FrameEntry)
    requires DistinctFrames(frames) && v < |frames| && frames[v].supKey != f.supKey
    requires PagedBut(frames, pagedir, sup, f.supKey)
    requires var w := frames[v].supKey;
      && pagedir' == pagedir - {w}
      && (forall q :: q != w ==> (q in sup' <==> q in sup) && (q in sup ==> sup'[q] == sup[q]))
      && (w in sup' ==> sup'[w].fromFile || sup'[w].swapIdx != NOT_IN_SWAP)
    ensures PagedBut(frames[v := f], pagedir', sup', f.supKey)
  {
    var w, key, fr := frames[v].supKey, f.supKey, frames[v := f];
    forall q | q != key
      ensures PagedAt(fr, pagedir', sup', q)
    {
      assert PagedAt(frames, pagedir, sup, q);
      if q == w {
        assert NoFrameHolds(fr, w);
      } else {
        if q in pagedir' {
          var i :| 0 <= i < |frames| && frames[i].supKey == q && frames[i].frameAddr == pagedir[q].kpage;
          assert fr[i] == frames[i];
        }
        if NoFrameHolds(fr, q) {
          assert forall j :: 0 <= j < |frames| ==> frames[j].supKey != q by {
            forall j | 0 <= j < |frames| ensures frames[j].supKey != q {
              if j != v { assert fr[j] == frames[j]; }
            }
          }
        }
      }
    }
  }

  /** A resident page that stops being a file page leaves every page as
      it was. */
  lemma PagedDemote(frames: seq<FrameEntry>, pagedir: map<PageKey, Pte>, sup: map<PageKey, SupEntry>,
                    sup': map<PageKey, SupEntry>, skip: PageKey, v: nat)
    requires PagedBut(frames, pagedir, sup, skip) && v < |frames| && frames[v].supKey != skip
    requires forall q :: q != frames[v].supKey ==> (q in sup' <==> q in sup) && (q in sup ==> sup'[q] == sup[q])
    ensures PagedBut(frames, pagedir, sup', skip)
  {
    forall q | q != skip
      ensures PagedAt(frames, pagedir, sup', q)
    {
      assert PagedAt(frames, pagedir, sup, q);
    }
  }

  /** New file-page records, or fewer records, leave every page as it
      was: the invariant at a page asks nothing of a file page. */
  lemma PagedRecords(frames: seq<FrameEntry>, pagedir: map<PageKey, Pte>, sup: map<PageKey, SupEntry>,
                     sup': map<PageKey, SupEntry>)
    requires PagedAll(frames, pagedir, sup)
    requires forall k :: k in sup' ==> (k in sup && sup'[k] == sup[k]) || sup'[k].fromFile
    ensures PagedAll(frames, pagedir, sup')
  {
    forall q ensures PagedAt(frames, pagedir, sup', q) {
      assert PagedAt(frames, pagedir, sup, q);
    }
  }

  /** Unmapping a page keeps the invariant everywhere. */
  lemma PagedUnmapped(s: Tables, handles: map<Handle, InodeId>, mem: map<Addr, seq<byte>>, key: PageKey)
    requires DistinctFrames(s.frames) && FramesBound(s.frames, s.sup)
    ensures var r := Unmapped(s, handles, mem, key);
      PagedAll(s.frames, s.pagedir, s.sup) ==> PagedAll(r.frames, r.pagedir, r.sup)
  {
    var r := Unmapped(s, handles, mem, key);
    if PagedAll(s.frames, s.pagedir, s.sup) && key in s.sup {
      assert PagedAt(s.frames, s.pagedir, s.sup, key);
      UnmappedStep(s, handles, mem, key);
      forall q ensures PagedAt(r.frames, r.pagedir, r.sup, q) {
        assert PagedAt(s.frames, s.pagedir, s.sup, q);
        if q != key && q in r.sup && NoFrameHolds(r.frames, q) {
          forall j | 0 <= j < |s.frames|
            ensures s.frames[j].supKey != q
          {
            assert s.frames[j] in s.frames;
          }
        }
      }
    }
  }

  /** Every record lazy_load creates is a file page. */
  lemma {:induction false} LazyPagesFile(t: Tid, g: Region, now: nat, m: nat)
    ensures forall k :: k in LazyPages(t, g, now, m) ==> LazyPages(t, g, now, m)[k].fromFile
  {
    if m > 0 {
      LazyPagesFile(t, g, now, m - 1);
    }
  }

  /** Filing the records of lazy_load keeps the invariant everywhere. */
  lemma PagedLazy(frames: seq<FrameEntry>, pagedir: map<PageKey, Pte>, sup: map<PageKey, SupEntry>,
                  t: Tid, g: Region, now: nat, m: nat)
    ensures PagedAll(frames, pagedir, sup) ==> PagedAll(frames, pagedir, sup + LazyPages(t, g, now, m))
  {
    if PagedAll(frames, pagedir, sup) {
      LazyPagesFile(t, g, now, m);
      PagedRecords(frames, pagedir, sup, sup + LazyPages(t, g, now, m));
    }
  }

  /** The write-back of a page depends only on the page's record and
      mapping. */
  lemma WriteBackLocal(inodes: map<InodeId, seq<byte>>, handles: map<Handle, InodeId>, mem: map<Addr, seq<byte>>, key: PageKey,
                       sup1: map<PageKey, SupEntry>, pagedir1: map<PageKey, Pte>, sup2: map<PageKey, SupEntry>, pagedir2: map<PageKey, Pte>)
    requires (key in sup1 <==> key in sup2) && (key in sup1 ==> sup1[key] == sup2[key])
    requires (key in pagedir1 <==> key in pagedir2) && (key in pagedir1 ==> pagedir1[key] == pagedir2[key])
    ensures WriteBack(inodes, handles, sup1, pagedir1, mem, key) == WriteBack(inodes, handles, sup2, pagedir2, mem, key)
  {
  }

  /** A bound above every element of a finite set of naturals. */
  ghost function Above(s: set<nat>): (r: nat)
    ensures forall x :: x in s ==> x < r
  {
    if s == {} then 0
    else
      var e :| e in s;
      var b := Above(s - {e});
      var r: nat := if e < b then b else e + 1;
      assert forall y :: y in s ==> y == e || y in s - {e};
      r
  }

  /** Where lazy_load's loop stands at page j of region g: rb file bytes
      and zb zeros left, the file offset and the user page of page j. */
  ghost predicate LazyLoadAt(g: Region, j: nat, rb: nat, zb: nat, offset: nat, page: Addr)
  {
    j * PGSIZE + rb + zb == g.readBytes + g.zeroBytes
    && rb == g.readBytes - Min(g.readBytes, j * PGSIZE) && offset == g.ofs + Min(g.readBytes, j * PGSIZE)
    && page == g.upage + j * PGSIZE && g.upage % PGSIZE == 0
  }

  /** lazy_load's loop ends after the region's last page. */
  lemma LazyLoadDone(g: Region, j: nat, offset: nat, page: Addr)
    requires LazyLoadAt(g, j, 0, 0, offset, page)
    ensures PageCount(g) == j
  {
    PagesOfTotal(g.readBytes + g.zeroBytes, j);
  }

  class Vm {
    /** the free part of the user pool (palloc_get_page (PAL_USER)) */
    var free: set<Addr>
    /** frame_table, in list order */
    var frames: seq<FrameEntry>
    /** every user-pool kernel page's bytes */
    var mem: map<Addr, seq<byte>>
    /** the supplemental page tables of all threads */
    var sup: map<PageKey, SupEntry>
    /** the page directories of all threads */
    var pagedir: map<PageKey, Pte>
    /** every file handle ever opened, bound to its inode */
    var handles: map<Handle, InodeId>
    /** the contents of the inodes */
    var inodes: map<InodeId, seq<byte>>
    /** the swap store */
    const swap: SwapStore

    ghost predicate Valid()
      reads this, swap
    {
      swap.Valid()
      && PoolOk(free, frames, mem)
      && TableOk(sup, swap.size)
      && FramesBound(frames, sup)
      && PagedirOk(pagedir, mem)
      && FilesOk(sup, handles, inodes)
    }

    /** The machine at boot: the whole user pool free and zeroed, empty
        page tables, the given files and an empty swap device. */
    constructor (pool: set<Addr>, device: seq<seq<byte>>, files: map<Handle, InodeId>, contents: map<InodeId, seq<byte>>)
      requires pool != {} && 0 !in pool
      requires forall i :: 0 <= i < |device| ==> |device[i]| == SECTOR_SIZE
      requires forall h :: h in files ==> files[h] in contents
      ensures Valid() && Paged() && fresh(swap)
      ensures free == pool && frames == [] && mem.Keys == pool && sup == map[] && pagedir == map[]
      ensures handles == files && inodes == contents
    {
      free := pool;
      frames := [];
      mem := map k | k in pool :: Zeros(PGSIZE);
      sup := map[];
      pagedir := map[];
      handles := files;
      inodes := contents;
      swap := new SwapStore(device);
    }

    /** The paging invariant at every page (PagedAt). */
    ghost predicate Paged()
      reads this
    {
      PagedAll(frames, pagedir, sup)
    }

    /** No frame holds the record filed under key. */
    ghost predicate NotResident(key: PageKey)
      reads this
    {
      NoFrameHolds(frames, key)
    }

    /** The else branch of evict_one_frame: the record stops being a file
        page, then write_frame_to_block copies kernel page k to a fresh swap
        slot and files the slot in the record. */
    method SwapOut(key: PageKey, k: Addr) returns (slot: Option<nat>)
      requires Valid() && key in sup && k in mem
      modifies this`sup, swap
      ensures Valid()
      ensures slot.None? ==> (sup == old(sup)[key := old(sup)[key].(fromFile := false)]
        && (forall s :: 0 <= s ==> !RunFree(old(swap.used), s))
        && swap.used == old(swap.used) && swap.sectors == old(swap.sectors))
      ensures slot.Some? ==> (sup == old(sup)[key := old(sup)[key].(fromFile := false, swapIdx := slot.value)]
        && RunFree(old(swap.used), slot.value) && (forall s :: 0 <= s < slot.value ==> !RunFree(old(swap.used), s))
        && swap.used == SetRun(old(swap.used), slot.value, true)
        && swap.sectors == WritePage(old(swap.sectors), slot.value, mem[k]))
    {
      var e := sup[key];
      RecordReplace(frames, sup, handles, inodes, swap.size, key, e.(fromFile := false));
      sup := sup[key := e.(fromFile := false)];
      slot := swap.GetNewSwapSlot();
      if slot.None? {
        return;
      }
      RecordReplace(frames, sup, handles, inodes, swap.size, key, e.(fromFile := false, swapIdx := slot.value));
      sup := sup[key := e.(fromFile := false, swapIdx := slot.value)];
      swap.WriteFrame(slot.value, mem[k]);
    }

    /** evict_one_frame: the victim is the first minimum of the frame
        table under frame_access_time_less. A dirty page of a mapped file
        is written back to the file, read from the user page in the
        current thread's address space; every other victim stops being a
        file page and is copied to a fresh swap slot. The victim's user
        page is then cleared from its owner's page directory. The frame
        table itself is unchanged: the caller reuses the entry. */
    method EvictOneFrame(cur: Tid) returns (v: nat, outcome: EvictOutcome)
      requires Valid() && |frames| > 0
      modifies this`sup, this`pagedir, this`inodes, swap
      ensures Valid()
      ensures v < |frames| && IsFirstMin(Pages(frames, old(sup)), v)
      ensures sup.Keys == old(sup).Keys
      ensures forall k :: k in old(sup) ==> Demoted(old(sup)[k], sup[k])
      ensures forall k :: k in old(sup) && k != frames[v].supKey ==> sup[k] == old(sup)[k]
      ensures forall q :: q in pagedir ==> q in old(pagedir) && pagedir[q] == old(pagedir)[q]
      ensures var key := frames[v].supKey;
        var e := old(sup)[key];
        match outcome
        case WroteBack =>
          WritesBack(old(pagedir), cur, e)
          && sup == old(sup)
          && (var ino := handles[e.file.value];
              inodes == old(inodes)[ino := FileWriteAt(old(inodes)[ino], e.ofs,
                old(mem)[old(pagedir)[PageKey(cur, e.addr)].kpage][..e.readBytes])])
          && swap.used == old(swap.used) && swap.sectors == old(swap.sectors)
          && pagedir == old(pagedir) - {PageKey(frames[v].owner, e.addr)}
        case Swapped(slot) =>
          !WritesBack(old(pagedir), cur, e)
          && RunFree(old(swap.used), slot) && (forall s :: 0 <= s < slot ==> !RunFree(old(swap.used), s))
          && swap.used == SetRun(old(swap.used), slot, true)
          && swap.sectors == WritePage(old(swap.sectors), slot, mem[frames[v].frameAddr])
          && sup == old(sup)[key := e.(fromFile := false, swapIdx := slot)]
          && inodes == old(inodes)
          && pagedir == old(pagedir) - {PageKey(frames[v].owner, e.addr)}
        case SwapFull =>
          !WritesBack(old(pagedir), cur, e)
          && (forall s :: 0 <= s ==> !RunFree(old(swap.used), s))
          && sup == old(sup)[key := e.(fromFile := false)]
          && inodes == old(inodes) && pagedir == old(pagedir)
          && swap.used == old(swap.used) && swap.sectors == old(swap.sectors)
    {
      v := ListMin(Pages(frames, sup));
      var f := frames[v];
      var e := sup[f.supKey];
      if WritesBack(pagedir, cur, e) {
        var ino := handles[e.file.value];
        var upage := mem[pagedir[PageKey(cur, e.addr)].kpage];
        inodes := inodes[ino := FileWriteAt(inodes[ino], e.ofs, upage[..e.readBytes])];
        outcome := WroteBack;
      } else {
        var slot := SwapOut(f.supKey, f.frameAddr);
        if slot.None? {
          return v, SwapFull;
        }
        outcome := Swapped(slot.value);
      }
      pagedir := pagedir - {PageKey(f.owner, e.addr)};
    }

    /** evict_one_frame as frame_new_page relies on it: the first minimum
        is chosen, only its record may change, and only by demotion. */
    method EvictVictim(cur: Tid, ghost key: PageKey) returns (v: nat, outcome: EvictOutcome)
      requires Valid() && |frames| > 0
      requires PagedBut(frames, pagedir, sup, key) && NotResident(key)
      modifies this`sup, this`pagedir, this`inodes, swap
      ensures Valid()
      ensures v < |frames| && IsFirstMin(Pages(frames, old(sup)), v)
      ensures sup.Keys == old(sup).Keys
      ensures forall k :: k in old(sup) ==> Demoted(old(sup)[k], sup[k])
      ensures forall k :: k in old(sup) && k != frames[v].supKey ==> sup[k] == old(sup)[k]
      ensures forall q :: q in pagedir ==> q in old(pagedir) && pagedir[q] == old(pagedir)[q]
      ensures outcome.SwapFull? ==> PagedBut(frames, pagedir, sup, key)
      ensures !outcome.SwapFull? ==> var w := frames[v].supKey;
        pagedir == old(pagedir) - {w} && (w in sup ==> sup[w].fromFile || sup[w].swapIdx != NOT_IN_SWAP)
    {
      ghost var p0, s0 := pagedir, sup;
      v, outcome := EvictOneFrame(cur);
      ghost var w := frames[v].supKey;
      assert PagedAt(frames, p0, s0, w);
      assert EntryOk(w, s0[w], swap.size);
      if outcome.SwapFull? {
        PagedDemote(frames, p0, s0, sup, key, v);
      }
    }

    /** The branch of frame_new_page taken when the pool is empty: the
        victim's frame-table entry is rebound to thread cur and record key,
        or nothing is rebound when the swap device is full. */
    method ReuseVictim(cur: Tid, key: PageKey) returns (r: Option<nat>, outcome: EvictOutcome)
      requires Valid() && key in sup && |frames| > 0
      requires PagedBut(frames, pagedir, sup, key) && NotResident(key)
      modifies this`frames, this`sup, this`pagedir, this`inodes, swap
      ensures Valid() && mem == old(mem) && handles == old(handles)
      ensures PagedBut(frames, pagedir, sup, key)
      ensures outcome.SwapFull? <==> r.None?
      ensures r.None? ==> frames == old(frames)
      ensures r.Some? ==> (r.value < |old(frames)| && IsFirstMin(Pages(old(frames), old(sup)), r.value)
        && frames == old(frames)[r.value := FrameEntry(old(frames)[r.value].frameAddr, cur, key)])
      ensures sup.Keys == old(sup).Keys
      ensures r.Some? ==> forall k :: k in sup && k != old(frames)[r.value].supKey ==> sup[k] == old(sup)[k]
      ensures forall k :: k in old(sup) ==> Demoted(old(sup)[k], sup[k])
      ensures old(NotResident(key)) ==> (sup[key] == old(sup)[key]
        && forall j :: 0 <= j < |frames| && r != Some(j) ==> frames[j].supKey != key)
      ensures forall q :: old(NotResident(q)) && key != q ==> NotResident(q)
      ensures forall q :: q in pagedir ==> q in old(pagedir) && pagedir[q] == old(pagedir)[q]
    {
      var v;
      ghost var p0, s0 := pagedir, sup;
      v, outcome := EvictVictim(cur, key);
      if outcome.SwapFull? {
        return None, outcome;
      }
      PoolRebind(free, frames, mem, v, cur, key);
      PagedRebind(frames, p0, s0, pagedir, sup, v, FrameEntry(frames[v].frameAddr, cur, key));
      frames := frames[v := FrameEntry(frames[v].frameAddr, cur, key)];
      r := Some(v);
    }

    /** frame_new_page: NULL for a null record; otherwise a free user page
        gets a new frame-table entry at the back of the table, and when the
        pool is empty the evicted victim's entry is rebound to the current
        thread and the new record. */
    method FrameNewPage(cur: Tid, key: Option<PageKey>) returns (r: Option<nat>, outcome: Option<EvictOutcome>)
      requires Valid() && (key.Some? ==> key.value in sup)
      requires key.Some? ==> PagedBut(frames, pagedir, sup, key.value) && NotResident(key.value)
      modifies this`free, this`frames, this`sup, this`pagedir, this`inodes, swap
      ensures Valid() && mem == old(mem) && handles == old(handles)
      ensures key.Some? ==> PagedBut(frames, pagedir, sup, key.value)
      ensures key.None? ==> (r.None? && outcome.None? && free == old(free) && frames == old(frames)
        && sup == old(sup) && pagedir == old(pagedir) && inodes == old(inodes) && swap.used == old(swap.used))
      ensures key.Some? && old(free) != {} ==> (outcome.None? && r == Some(|old(frames)|) && |frames| == |old(frames)| + 1
        && frames == old(frames) + [FrameEntry(frames[r.value].frameAddr, cur, key.value)]
        && frames[r.value].frameAddr in old(free) && free == old(free) - {frames[r.value].frameAddr}
        && sup == old(sup) && pagedir == old(pagedir) && inodes == old(inodes)
        && swap.used == old(swap.used) && swap.sectors == old(swap.sectors))
      ensures key.Some? && old(free) == {} ==> (outcome.Some? && free == old(free)
        && (outcome.value.SwapFull? <==> r.None?)
        && (r.None? ==> frames == old(frames))
        && (r.Some? ==> (r.value < |old(frames)| && IsFirstMin(Pages(old(frames), old(sup)), r.value)
              && frames == old(frames)[r.value := FrameEntry(old(frames)[r.value].frameAddr, cur, key.value)])))
      ensures r.Some? ==> (r.value < |frames| && frames[r.value].owner == cur && frames[r.value].supKey == key.value)
      ensures key.Some? ==> sup.Keys == old(sup).Keys
      ensures key.Some? && outcome.Some? && r.Some? ==>
        forall k :: k in sup && k != old(frames)[r.value].supKey ==> sup[k] == old(sup)[k]
      ensures forall k :: k in old(sup) ==> k in sup && Demoted(old(sup)[k], sup[k])
      ensures key.Some? && old(NotResident(key.value)) ==> (sup[key.value] == old(sup)[key.value]
        && forall j :: 0 <= j < |frames| && r != Some(j) ==> frames[j].supKey != key.value)
      ensures forall q :: old(NotResident(q)) && key != Some(q) ==> NotResident(q)
      ensures forall q :: q in pagedir ==> q in old(pagedir) && pagedir[q] == old(pagedir)[q]
    {
      if key.None? {
        return None, None;
      }
      if free != {} {
        var k :| k in free;
        PoolTake(free, frames, mem, FrameEntry(k, cur, key.value));
        PagedAppend(frames, pagedir, sup, FrameEntry(k, cur, key.value));
        free := free - {k};
        frames := frames + [FrameEntry(k, cur, key.value)];
        return Some(|frames| - 1), None;
      }
      var o;
      r, o := ReuseVictim(cur, key.value);
      outcome := Some(o);
    }

    /** frame_free_page: the first frame holding kernel page k, if any,
        leaves the table and its page returns to the pool; a null or
        unknown page changes nothing. */
    method FrameFreePage(k: Addr)
      requires Valid()
      modifies this`frames, this`free
      ensures Valid()
      ensures k == 0 || FrameIndex(old(frames), k).None? ==> frames == old(frames) && free == old(free)
      ensures k != 0 && FrameIndex(old(frames), k).Some? ==>
        var i := FrameIndex(old(frames), k).value;
        frames == old(frames)[..i] + old(frames)[i + 1..] && free == old(free) + {k}
    {
      if k == 0 {
        return;
      }
      var stop, _ := ForeachIf(frames, (f: FrameEntry) => f.frameAddr == k, (f: FrameEntry) => true);
      if stop.Some? {
        var i := stop.value;
        assert FrameIndex(frames, k) == Some(i);
        frames := frames[..i] + frames[i + 1..];
        free := free + {k};
      } else {
        assert FrameIndex(frames, k).None?;
      }
    }

    /** hash_insert into the supplemental page tables: refused, leaving
        the tables as they were, when the page already has a record. */
    method HashInsert(key: PageKey, e: SupEntry) returns (inserted: bool)
      requires Valid() && EntryOk(key, e, swap.size) && (e.file.Some? ==> e.file.value in handles)
      modifies this`sup
      ensures Valid()
      ensures inserted <==> key !in old(sup)
      ensures sup == if inserted then old(sup)[key := e] else old(sup)
    {
      if key in sup {
        return false;
      }
      RecordInsert(frames, sup, handles, inodes, swap.size, key, e);
      sup := sup[key := e];
      return true;
    }

    /** The body of lazy_load's loop: the record of page j of the region,
        inserted unless the page already has one. */
    method LazyLoadPage(cur: Tid, g: Region, now: nat, page: Addr, offset: nat, pageRead: nat,
                        ghost j: nat, ghost sup0: map<PageKey, SupEntry>) returns (inserted: bool)
      requires Valid() && g.file in handles
      requires page == g.upage + j * PGSIZE && g.upage % PGSIZE == 0
      requires offset == g.ofs + Min(g.readBytes, j * PGSIZE) && pageRead == PageRead(g.readBytes, j)
      requires FreshPages(sup0, cur, g, j) && sup == sup0 + LazyPages(cur, g, now, j)
      modifies this`sup
      ensures Valid()
      ensures inserted ==> FreshPages(sup0, cur, g, j + 1) && sup == sup0 + LazyPages(cur, g, now, j + 1)
      ensures !inserted ==> LazyKey(cur, g, j) in sup0 && sup == old(sup)
    {
      AlignedAt(g.upage, j);
      var e := NewSupEntry(page, now);
      e := e.(fromFile := true, file := Some(g.file), readBytes := pageRead, zeroBytes := PGSIZE - pageRead,
              writable := g.writable, ofs := offset, isMmap := g.isMmap);
      var key := PageKey(cur, e.addr);
      LazyEntryIs(g, now, j, page, offset, pageRead);
      assert key == LazyKey(cur, g, j) && e == LazyEntry(g, now, j);
      LazyPagesBelow(cur, g, now, j);
      assert key !in LazyPages(cur, g, now, j);
      inserted := HashInsert(key, e);
      if inserted {
        LazyAdvance(sup0, old(sup), cur, g, now, j);
      }
    }

    /** lazy_load: one record per page of the region, at consecutive pages
        from upage, each with min(remaining, PGSIZE) file bytes at the
        advancing offset and zeros for the rest of the page. It stops with
        false at the first page that already has a record, keeping the
        records of the earlier pages. */
    method LazyLoad(cur: Tid, file: Handle, ofs: nat, upage: Addr, readBytes: nat, zeroBytes: nat,
                    writable: bool, isMmap: bool, now: nat) returns (ok: bool)
      requires Valid() && file in handles
      requires upage % PGSIZE == 0 && (readBytes + zeroBytes) % PGSIZE == 0
      modifies this`sup
      ensures Valid() && (old(Paged()) ==> Paged())
      ensures var g := Region(file, ofs, upage, readBytes, zeroBytes, writable, isMmap);
        ok ==> (FreshPages(old(sup), cur, g, PageCount(g))
          && sup == old(sup) + LazyPages(cur, g, now, PageCount(g)))
      ensures var g := Region(file, ofs, upage, readBytes, zeroBytes, writable, isMmap);
        !ok ==> (exists m :: (0 <= m < PageCount(g) && LazyKey(cur, g, m) in old(sup)
          && FreshPages(old(sup), cur, g, m)
          && sup == old(sup) + LazyPages(cur, g, now, m)))
    {
      var g := Region(file, ofs, upage, readBytes, zeroBytes, writable, isMmap);
      var offset := ofs;
      var rb: nat := readBytes;
      var zb: nat := zeroBytes;
      var page := upage;
      ghost var j: nat := 0;
      while rb > 0 || zb > 0
        invariant LazyLoadAt(g, j, rb, zb, offset, page)
        invariant FreshPages(old(sup), cur, g, j)
        invariant sup == old(sup) + LazyPages(cur, g, now, j)
        invariant Valid()
        decreases rb + zb
      {
        var inserted;
        inserted, rb, zb, offset, page := LazyLoadNext(cur, g, now, rb, zb, offset, page, j, old(sup));
        if !inserted {
          PagedLazy(frames, pagedir, old(sup), cur, g, now, j);
          return false;
        }
        j := j + 1;
      }
      LazyLoadDone(g, j, offset, page);
      PagedLazy(frames, pagedir, old(sup), cur, g, now, j);
      return true;
    }

    /** One iteration of lazy_load's loop, at page j with rb file bytes and
        zb zeros left: the page's record, and the counts, offset and page
        for the next iteration. */
    method LazyLoadNext(cur: Tid, g: Region, now: nat, rb: nat, zb: nat, offset: nat, page: Addr,
                        ghost j: nat, ghost sup0: map<PageKey, SupEntry>)
      returns (inserted: bool, rb': nat, zb': nat, offset': nat, page': Addr)
      requires Valid() && g.file in handles && (g.readBytes + g.zeroBytes) % PGSIZE == 0
      requires LazyLoadAt(g, j, rb, zb, offset, page) && rb + zb > 0
      requires FreshPages(sup0, cur, g, j) && sup == sup0 + LazyPages(cur, g, now, j)
      modifies this`sup
      ensures Valid()
      ensures inserted ==> (LazyLoadAt(g, j + 1, rb', zb', offset', page') && rb' + zb' < rb + zb
        && FreshPages(sup0, cur, g, j + 1) && sup == sup0 + LazyPages(cur, g, now, j + 1))
      ensures !inserted ==> (j < PageCount(g) && LazyKey(cur, g, j) in sup0
        && FreshPages(sup0, cur, g, j) && sup == sup0 + LazyPages(cur, g, now, j))
    {
      LazyStep(g.readBytes, g.zeroBytes, j, rb, zb);
      var pageRead := if rb < PGSIZE then rb else PGSIZE;
      var pageZero := PGSIZE - pageRead;
      inserted := LazyLoadPage(cur, g, now, page, offset, pageRead, j, sup0);
      offset', rb', zb', page' := offset + pageRead, rb - pageRead, zb - pageZero, page + PGSIZE;
    }

    /** do_sup_table_entry_free: the record's swap slot, if it has one,
        is released and the record leaves the table. */
    method FreeRecord(k: PageKey)
      requires Valid() && k in sup && NotResident(k)
      modifies this`sup, swap`used
      ensures Valid() && sup == old(sup) - {k}
      ensures var e := old(sup)[k];
        swap.used == if e.swapIdx != NOT_IN_SWAP then SetRun(old(swap.used), e.swapIdx, false) else old(swap.used)
    {
      var e := sup[k];
      if e.swapIdx != NOT_IN_SWAP {
        swap.Release(e.swapIdx);
      }
      RecordRemove(frames, sup, handles, inodes, swap.size, k);
      sup := sup - {k};
    }

    /** sup_table_free of thread t: every record of t goes, and the swap
        slot of each one that has one is released. */
    method SupTableFree(t: Tid)
      requires Valid() && forall i :: 0 <= i < |frames| ==> frames[i].supKey.tid != t
      modifies this`sup, swap
      ensures Valid() && (old(Paged()) ==> Paged())
      ensures forall k :: k in sup <==> k in old(sup) && k.tid != t
      ensures forall k :: k in sup ==> sup[k] == old(sup)[k]
      ensures |swap.used| == |old(swap.used)| && swap.sectors == old(swap.sectors)
      ensures forall i :: 0 <= i < |swap.used| ==> swap.used[i] == (old(swap.used)[i] && !SwapCovered(old(sup), t, i))
    {
      ghost var done: set<PageKey> := {};
      while exists k :: k in sup && k.tid == t
        invariant Valid() && |swap.used| == |old(swap.used)| && swap.sectors == old(swap.sectors)
        invariant forall k :: k in sup <==> k in old(sup) && k !in done
        invariant forall k :: k in sup ==> sup[k] == old(sup)[k]
        invariant forall k :: k in done ==> k in old(sup) && k.tid == t
        invariant forall i :: 0 <= i < |swap.used| ==> swap.used[i] == (old(swap.used)[i] && !SwapCoveredBy(old(sup), done, i))
        decreases |sup|
      {
        var k :| k in sup && k.tid == t;
        ghost var used := swap.used;
        FreeRecord(k);
        ReleaseStep(old(swap.used), used, swap.used, old(sup), done, k);
        done := done + {k};
      }
      CoveredByAll(old(sup), done, t);
      if old(Paged()) {
        PagedRecords(frames, pagedir, old(sup), sup);
      }
    }

    /** The frame at index i holds key's page and key's user page is
        mapped to that frame's kernel page. */
    ghost predicate MappedAt(key: PageKey, i: nat)
      reads this
    {
      i < |frames| && frames[i].supKey == key && frames[i].owner == key.tid
      && key in pagedir && pagedir[key].kpage == frames[i].frameAddr
    }

    /** install_page: map user page upage of thread t to kernel page k,
        refused when upage is already mapped (pagedir_set_page does not
        fail here). A new mapping starts clean. */
    method InstallPage(t: Tid, upage: Addr, k: Addr, writable: bool) returns (ok: bool)
      requires Valid() && k in mem
      modifies this`pagedir
      ensures Valid()
      ensures ok <==> PageKey(t, upage) !in old(pagedir)
      ensures pagedir == if ok then old(pagedir)[PageKey(t, upage) := Pte(k, writable, false)] else old(pagedir)
    {
      if PageKey(t, upage) in pagedir {
        return false;
      }
      pagedir := pagedir[PageKey(t, upage) := Pte(k, writable, false)];
      return true;
    }

    /** frame_new_page as the fault paths see it: a frame at index i
        now holds key for thread cur, and no other frame does; None when
        the pool was empty and the swap device full. The record itself is
        not touched. */
    method ClaimFrame(cur: Tid, key: PageKey) returns (r: Option<nat>)
      requires Valid() && key in sup && NotResident(key) && PagedBut(frames, pagedir, sup, key)
      modifies this`free, this`frames, this`sup, this`pagedir, this`inodes, swap
      ensures Valid() && mem == old(mem) && handles == old(handles)
      ensures PagedBut(frames, pagedir, sup, key)
      ensures sup.Keys == old(sup).Keys && sup[key] == old(sup)[key]
      ensures r.Some? ==> (r.value < |frames| && frames[r.value].owner == cur && frames[r.value].supKey == key
        && forall j :: 0 <= j < |frames| && j != r.value ==> frames[j].supKey != key)
      ensures r.None? ==> old(free) == {} && frames == old(frames) && NotResident(key)
      ensures forall q :: old(NotResident(q)) && q != key ==> NotResident(q)
      ensures forall k :: k in old(sup) ==> Demoted(old(sup)[k], sup[k])
      ensures Kept(old(sup), sup)
      ensures forall q :: q in pagedir ==> q in old(pagedir) && pagedir[q] == old(pagedir)[q]
    {
      var o;
      r, o := FrameNewPage(cur, Some(key));
    }

    /** Writes bytes over the start of kernel page k (file_read into the
        frame, memset of its tail). */
    method WriteFrameBytes(k: Addr, at: nat, bytes: seq<byte>)
      requires Valid() && k in mem && at + |bytes| <= PGSIZE
      modifies this`mem
      ensures Valid() && mem.Keys == old(mem).Keys
      ensures mem == old(mem)[k := old(mem)[k][..at] + bytes + old(mem)[k][at + |bytes|..]]
    {
      var page := mem[k][..at] + bytes + mem[k][at + |bytes|..];
      MemWrite(free, frames, mem, pagedir, k, page);
      mem := mem[k := page];
    }

    /** frame_free_page of the frame at index i, the only one holding key:
        afterwards no frame holds key. */
    method ReleaseFrame(i: nat, key: PageKey)
      requires Valid() && i < |frames| && frames[i].supKey == key
      requires forall j :: 0 <= j < |frames| && j != i ==> frames[j].supKey != key
      modifies this`frames, this`free
      ensures Valid() && NotResident(key)
      ensures frames == old(frames)[..i] + old(frames)[i + 1..] && free == old(free) + {old(frames)[i].frameAddr}
    {
      FrameIndexOf(free, frames, mem, i);
      DropFrame(frames, i, key);
      FrameFreePage(frames[i].frameAddr);
    }

    /** The part of load_from_file after the frame at index i was claimed
        for record key: the file bytes, the zeros, the mapping; on a short
        read or an existing mapping the frame is freed again. */
    method FillFromFile(cur: Tid, key: PageKey, i: nat) returns (st: Status)
      requires Valid() && key in sup && key.tid == cur && sup[key].fromFile
      requires i < |frames| && frames[i].supKey == key && frames[i].owner == cur
      requires forall j :: 0 <= j < |frames| && j != i ==> frames[j].supKey != key
      modifies this`free, this`frames, this`mem, this`pagedir
      ensures Valid() && mem.Keys == old(mem).Keys && st != Killed
      ensures old(PagedBut(frames, pagedir, sup, key)) && key !in old(pagedir) ==> Paged()
      ensures var e := sup[key];
        var data := FileReadAt(inodes[handles[e.file.value]], e.ofs, e.readBytes);
        var k := old(frames)[i].frameAddr;
        (st == Success ==> (frames == old(frames) && MappedAt(key, i) && pagedir[key].writable == e.writable
            && |data| == e.readBytes
            && mem[k] == data + Zeros(e.zeroBytes) + old(mem)[k][e.readBytes + e.zeroBytes..]))
        && (st == Failure ==> (NotResident(key) && (|data| != e.readBytes || key in old(pagedir))))
    {
      var e := sup[key];
      var k := frames[i].frameAddr;
      ghost var f0, p0 := frames, pagedir;
      var data := FileReadAt(inodes[handles[e.file.value]], e.ofs, e.readBytes);
      WriteFrameBytes(k, 0, data);
      if |data| != e.readBytes {
        ReleaseFrame(i, key);
        if PagedBut(f0, p0, sup, key) && key !in p0 {
          PagedDrop(f0, p0, sup, key, i);
          PagedUnheld(frames, pagedir, sup, key);
          PagedClose(frames, pagedir, sup, key);
        }
        return Failure;
      }
      TwoWrites(old(mem)[k], data, Zeros(e.zeroBytes));
      WriteFrameBytes(k, e.readBytes, Zeros(e.zeroBytes));
      var ok := InstallPage(cur, e.addr, k, e.writable);
      if !ok {
        ReleaseFrame(i, key);
        return Failure;
      }
      if PagedBut(frames, p0, sup, key) {
        PagedTouch(frames, p0, sup, pagedir, sup, key);
        PagedMapped(frames, pagedir, sup, key, i);
        PagedClose(frames, pagedir, sup, key);
      }
      return Success;
    }

    /** load_from_file: a frame for the record, the record's file bytes
        read into it at the record's offset, the zero bytes after them,
        and the page mapped with the record's writable bit. A short read
        or a page that is already mapped frees the frame again; a full
        swap device terminates the thread. The record is not changed. */
    method LoadFromFile(cur: Tid, key: PageKey) returns (st: Status, ghost i: nat)
      requires Valid() && key in sup && key.tid == cur && sup[key].fromFile && NotResident(key)
      requires PagedBut(frames, pagedir, sup, key) && key !in pagedir
      modifies this`free, this`frames, this`mem, this`sup, this`pagedir, this`inodes, swap
      ensures Valid() && Paged() && handles == old(handles) && mem.Keys == old(mem).Keys
      ensures key in sup && sup[key] == old(sup)[key] && Kept(old(sup), sup)
      ensures var e := old(sup)[key];
        var data := FileReadAt(inodes[handles[e.file.value]], e.ofs, e.readBytes);
        (st == Success ==> (MappedAt(key, i) && pagedir[key].writable == e.writable && |data| == e.readBytes
            && mem[frames[i].frameAddr] == data + Zeros(e.zeroBytes) + old(mem)[frames[i].frameAddr][e.readBytes + e.zeroBytes..]))
        && (st == Failure ==> |data| != e.readBytes || key in old(pagedir))
      ensures st != Success ==> NotResident(key)
      ensures st == Killed ==> old(free) == {} && frames == old(frames)
    {
      var r := ClaimFrame(cur, key);
      if r.None? {
        PagedUnheld(frames, pagedir, sup, key);
        PagedClose(frames, pagedir, sup, key);
        return Killed, 0;
      }
      i := r.value;
      st := FillFromFile(cur, key, r.value);
      assert Kept(old(sup), sup);
    }

    /** frame_free_page of the frame at index i, the only one holding
        key, and the record filed under key deleted from the tables. */
    method DropPage(i: nat, key: PageKey)
      requires Valid() && key in sup && i < |frames| && frames[i].supKey == key
      requires forall j :: 0 <= j < |frames| && j != i ==> frames[j].supKey != key
      modifies this`frames, this`free, this`sup
      ensures Valid() && NotResident(key) && sup == old(sup) - {key}
      ensures frames == old(frames)[..i] + old(frames)[i + 1..] && free == old(free) + {old(frames)[i].frameAddr}
    {
      ReleaseFrame(i, key);
      RecordRemove(frames, sup, handles, inodes, swap.size, key);
      sup := sup - {key};
    }

    /** install_page of the frame at index i, claimed for a new record
        key; when the page is already mapped the frame is freed and the
        record deleted. */
    method MapNewPage(key: PageKey, i: nat, writable: bool) returns (st: Status)
      requires Valid() && key in sup && i < |frames| && frames[i].supKey == key && frames[i].owner == key.tid
      requires forall j :: 0 <= j < |frames| && j != i ==> frames[j].supKey != key
      modifies this`frames, this`free, this`sup, this`pagedir
      ensures Valid() && st != Killed
      ensures old(PagedBut(frames, pagedir, sup, key)) && key !in old(pagedir) ==> st == Success && Paged()
      ensures st == Success ==> (frames == old(frames) && sup == old(sup) && MappedAt(key, i)
        && key !in old(pagedir) && pagedir[key].writable == writable)
      ensures st == Failure ==> (key in old(pagedir) && sup == old(sup) - {key} && NotResident(key))
    {
      ghost var p0 := pagedir;
      var ok := InstallPage(key.tid, key.page, frames[i].frameAddr, writable);
      if !ok {
        DropPage(i, key);
        return Failure;
      }
      if PagedBut(frames, p0, sup, key) {
        PagedTouch(frames, p0, sup, pagedir, sup, key);
        PagedMapped(frames, pagedir, sup, key, i);
        PagedClose(frames, pagedir, sup, key);
      }
      return Success;
    }

    /** The swap half of load_from_swap: read_frame_from_block copies the
        record's eight sectors into kernel page k and releases them, and
        the record forgets its slot and takes the new access time. */
    method SwapIn(key: PageKey, k: Addr, now: nat)
      requires Valid() && key in sup && sup[key].swapIdx != NOT_IN_SWAP && k in mem
      modifies this`mem, this`sup, swap`used
      ensures Valid() && mem.Keys == old(mem).Keys
      ensures var e := old(sup)[key];
        swap.used == SetRun(old(swap.used), e.swapIdx, false)
        && mem == old(mem)[k := ReadPage(swap.sectors, e.swapIdx)]
        && sup == old(sup)[key := e.(swapIdx := NOT_IN_SWAP, accessTime := now)]
      ensures Kept(old(sup), sup)
      ensures old(PagedBut(frames, pagedir, sup, key)) ==> PagedBut(frames, pagedir, sup, key)
    {
      var e := sup[key];
      var page := swap.ReadFrame(e.swapIdx);
      WriteFrameBytes(k, 0, page);
      assert mem[k] == page;
      RecordReplace(frames, sup, handles, inodes, swap.size, key, e.(swapIdx := NOT_IN_SWAP, accessTime := now));
      if PagedBut(frames, pagedir, sup, key) {
        PagedTouch(frames, pagedir, sup, pagedir, sup[key := e.(swapIdx := NOT_IN_SWAP, accessTime := now)], key);
      }
      sup := sup[key := e.(swapIdx := NOT_IN_SWAP, accessTime := now)];
    }

    /** The part of load_from_swap after the frame at index i was claimed
        for record key: read_frame_from_block copies the record's eight
        sectors into the frame and releases them, the record forgets its
        slot and takes the new access time, and the page is mapped. When
        the page is already mapped the frame is freed and the record is
        deleted. */
    method FillFromSwap(cur: Tid, key: PageKey, i: nat, now: nat) returns (st: Status)
      requires Valid() && key in sup && key.tid == cur && sup[key].swapIdx != NOT_IN_SWAP
      requires i < |frames| && frames[i].supKey == key && frames[i].owner == cur
      requires forall j :: 0 <= j < |frames| && j != i ==> frames[j].supKey != key
      modifies this`free, this`frames, this`mem, this`sup, this`pagedir, swap`used
      ensures Valid() && mem.Keys == old(mem).Keys && st != Killed
      ensures old(PagedBut(frames, pagedir, sup, key)) && key !in old(pagedir) ==> st == Success && Paged()
      ensures st == Success ==> Kept(old(sup), sup)
      ensures var e := old(sup)[key];
        swap.used == SetRun(old(swap.used), e.swapIdx, false)
        && (st == Success ==> (frames == old(frames) && MappedAt(key, i) && pagedir[key].writable == e.writable
            && mem[old(frames)[i].frameAddr] == ReadPage(swap.sectors, e.swapIdx)
            && sup == old(sup)[key := e.(swapIdx := NOT_IN_SWAP, accessTime := now)]))
        && (st == Failure ==> (key in old(pagedir) && sup == old(sup) - {key} && NotResident(key)))
    {
      var e := sup[key];
      SwapIn(key, frames[i].frameAddr, now);
      st := MapNewPage(key, i, e.writable);
    }

    /** load_from_swap: a frame for the record, filled from its swap slot,
        which is released. A full swap device during eviction terminates
        the thread. */
    method LoadFromSwap(cur: Tid, key: PageKey, now: nat) returns (st: Status, ghost i: nat)
      requires Valid() && key in sup && key.tid == cur && sup[key].swapIdx != NOT_IN_SWAP && NotResident(key)
      requires PagedBut(frames, pagedir, sup, key) && key !in pagedir
      modifies this`free, this`frames, this`mem, this`sup, this`pagedir, this`inodes, swap
      ensures Valid() && Paged() && mem.Keys == old(mem).Keys && Kept(old(sup), sup)
      ensures var e := old(sup)[key];
        (st == Success ==> (MappedAt(key, i) && pagedir[key].writable == e.writable
            && mem[frames[i].frameAddr] == ReadPage(swap.sectors, e.swapIdx)
            && key in sup && sup[key] == e.(swapIdx := NOT_IN_SWAP, accessTime := now)))
        && (st == Failure ==> (key in old(pagedir) && key !in sup))
      ensures st != Success ==> NotResident(key)
      ensures st == Killed ==> old(free) == {} && frames == old(frames) && key in sup && sup[key] == old(sup)[key]
    {
      var r := ClaimFrame(cur, key);
      if r.None? {
        PagedUnheld(frames, pagedir, sup, key);
        PagedClose(frames, pagedir, sup, key);
        return Killed, 0;
      }
      i := r.value;
      ghost var s1 := sup;
      st := FillFromSwap(cur, key, r.value, now);
      KeptTrans(old(sup), s1, sup);
    }

    /** grow_stack: a fresh record for the page of addr (accessed now),
        a frame for it and the page mapped writable. The record is filed
        before the frame is claimed rather than after the page is mapped:
        nothing in between looks it up, and every failure path takes it
        out again. A full swap device terminates the thread. */
    method GrowStack(cur: Tid, addr: Addr, now: nat) returns (st: Status, ghost i: nat)
      requires Valid() && Paged() && PageKey(cur, RoundDown(addr)) !in sup
      modifies this`free, this`frames, this`sup, this`pagedir, this`inodes, swap
      ensures Valid() && Paged()
      ensures var key := PageKey(cur, RoundDown(addr));
        (st == Success ==> (MappedAt(key, i) && pagedir[key].writable && key in sup && sup[key] == NewSupEntry(addr, now)))
        && (st == Failure ==> key in old(pagedir))
        && (st != Success ==> key !in sup && NotResident(key))
      ensures st == Killed ==> old(free) == {}
      ensures forall k :: k in old(sup) ==> k in sup && Demoted(old(sup)[k], sup[k])
    {
      var e := NewSupEntry(addr, now);
      var key := PageKey(cur, e.addr);
      NewSupEntryOk(cur, addr, now, swap.size);
      RecordInsert(frames, sup, handles, inodes, swap.size, key, e);
      PagedUnrecorded(frames, pagedir, sup, key);
      PagedTouch(frames, pagedir, sup, pagedir, sup[key := e], key);
      sup := sup[key := e];
      var r := ClaimFrame(cur, key);
      if r.None? {
        RecordRemove(frames, sup, handles, inodes, swap.size, key);
        PagedTouch(frames, pagedir, sup, pagedir, sup - {key}, key);
        sup := sup - {key};
        PagedUnheld(frames, pagedir, sup, key);
        PagedClose(frames, pagedir, sup, key);
        return Killed, 0;
      }
      i := r.value;
      st := MapNewPage(key, r.value, true);
    }

    /** try_get_page: the fault address's page is looked up in the current
        thread's table. Without a record, an address at least esp - 32
        grows the stack and any lower one fails; a record of a file page
        is loaded from the file, any other record from swap. */
    method TryGetPage(cur: Tid, addr: Addr, esp: nat, now: nat) returns (st: Status, ghost i: nat)
      requires Valid() && Paged() && 0 < addr < UINT32_LIMIT && esp < UINT32_LIMIT
      requires PageKey(cur, RoundDown(addr)) !in pagedir
      modifies this`free, this`frames, this`mem, this`sup, this`pagedir, this`inodes, swap
      ensures Valid() && Paged() && Kept(old(sup), sup)
      ensures var key := PageKey(cur, RoundDown(addr));
        (key !in old(sup) && addr < StackLimit(esp) ==> (st == Failure && sup == old(sup)
          && frames == old(frames) && pagedir == old(pagedir)))
        && (st == Success ==> MappedAt(key, i) && key in sup)
        && (st == Success && key !in old(sup) ==> sup[key] == NewSupEntry(addr, now) && pagedir[key].writable)
        && (st == Success && key in old(sup) && old(sup)[key].fromFile ==> sup[key] == old(sup)[key])
        && (st == Success && key in old(sup) && !old(sup)[key].fromFile ==>
              sup[key] == old(sup)[key].(swapIdx := NOT_IN_SWAP, accessTime := now))
        && (st != Success ==> NotResident(key))
      ensures st == Killed ==> old(free) == {}
      ensures mem.Keys == old(mem).Keys
      ensures PageKey(cur, RoundDown(addr)) !in old(sup) && addr >= StackLimit(esp) ==> st != Failure
      ensures var key := PageKey(cur, RoundDown(addr));
        key in old(sup) && old(sup)[key].fromFile ==>
          var e := old(sup)[key];
          var data := FileReadAt(inodes[handles[e.file.value]], e.ofs, e.readBytes);
          (st == Success ==> (pagedir[key].writable == e.writable
            && mem[frames[i].frameAddr] == data + Zeros(e.zeroBytes) + old(mem)[frames[i].frameAddr][e.readBytes + e.zeroBytes..]))
          && (st == Failure ==> |data| != e.readBytes)
      ensures var key := PageKey(cur, RoundDown(addr));
        key in old(sup) && !old(sup)[key].fromFile ==>
          var e := old(sup)[key];
          st != Failure
          && (st == Success ==> (pagedir[key].writable == e.writable
            && e.swapIdx != NOT_IN_SWAP && mem[frames[i].frameAddr] == ReadPage(swap.sectors, e.swapIdx)))
    {
      var found := SupTableFind(sup, cur, addr);
      var key := PageKey(cur, RoundDown(addr));
      PagedFault(frames, pagedir, sup, key);
      if found.None? {
        if addr < StackLimit(esp) {
          return Failure, 0;
        }
        st, i := GrowStack(cur, addr, now);
      } else if found.value.fromFile {
        st, i := LoadFromFile(cur, key);
      } else {
        st, i := LoadFromSwap(cur, key, now);
      }
    }

    /** Every frame that holds key is the frame key's user page is mapped
        to: outside the fault paths, a resident page is mapped. */
    ghost predicate Coherent(key: PageKey)
      reads this
    {
      CoherentAt(frames, pagedir, key)
    }

    /** file_reopen: a new handle on the inode of h (the allocation does
        not fail here). */
    method FileReopen(h: Handle) returns (r: Handle)
      requires Valid() && h in handles
      modifies this`handles
      ensures Valid() && r !in old(handles) && handles == old(handles)[r := old(handles)[h]]
    {
      r := 0;
      while r in handles
        invariant r <= Above(handles.Keys)
        decreases Above(handles.Keys) - r
      {
        r := r + 1;
      }
      handles := handles[r := handles[h]];
    }

    /** The part of the machine the unmapping of a page changes. */
    ghost function State(): Tables
      reads this, swap
    {
      Tables(frames, free, sup, pagedir, inodes, swap.used)
    }

    /** One page of do_free_mmap_entry, for thread t's page at page. */
    method UnmapPage(t: Tid, page: Addr)
      requires Valid() && page != 0 && page % PGSIZE == 0
      requires Coherent(PageKey(t, page)) && (PageKey(t, page) in sup ==> sup[PageKey(t, page)].file.Some?)
      modifies this`frames, this`free, this`sup, this`pagedir, this`inodes, swap`used
      ensures Valid() && NotResident(PageKey(t, page)) && (old(Paged()) ==> Paged())
      ensures State() == Unmapped(old(State()), handles, mem, PageKey(t, page))
    {
      ghost var s0 := State();
      assert DistinctFrames(s0.frames);
      PagedUnmapped(s0, handles, mem, PageKey(t, page));
      var found := SupTableFind(sup, t, page);
      if found.None? {
        return;
      }
      UnmapRecorded(PageKey(t, page));
    }

    /** do_free_mmap_entry's turn for a page that has a record. */
    method UnmapRecorded(key: PageKey)
      requires Valid() && key in sup && sup[key].file.Some? && Coherent(key)
      modifies this`frames, this`free, this`sup, this`pagedir, this`inodes, swap`used
      ensures Valid() && NotResident(key)
      ensures State() == Unmapped(old(State()), handles, mem, key)
    {
      WriteBackPage(key);
      if key in pagedir {
        UnmapFrame(key);
      }
      DeleteRecord(key);
    }

    /** hash_delete of the record of key: it leaves the table and nothing
        else changes, its swap slot included. */
    method DeleteRecord(k: PageKey)
      requires Valid() && k in sup && NotResident(k)
      modifies this`sup
      ensures Valid() && sup == old(sup) - {k}
    {
      RecordRemove(frames, sup, handles, inodes, swap.size, k);
      sup := sup - {k};
    }

    /** The write-back of do_free_mmap_entry: file_seek to the record's
        offset and file_write of its read_bytes from the page, when the
        page is dirty. */
    method WriteBackPage(key: PageKey)
      requires Valid() && key in sup && sup[key].file.Some?
      modifies this`inodes
      ensures Valid() && inodes == WriteBack(old(inodes), handles, sup, pagedir, mem, key)
    {
      if IsDirty(pagedir, key) {
        var e := sup[key];
        var ino := handles[e.file.value];
        inodes := inodes[ino := FileWriteAt(inodes[ino], e.ofs, mem[pagedir[key].kpage][..e.readBytes])];
      }
    }

    /** frame_free_page of the frame key's page is mapped to, then
        pagedir_clear_page. */
    method UnmapFrame(key: PageKey)
      requires Valid() && key in pagedir && Coherent(key)
      modifies this`frames, this`free, this`pagedir
      ensures Valid() && NotResident(key) && pagedir == old(pagedir) - {key}
      ensures (frames, free) == FreeFrame(old(frames), old(free), old(pagedir)[key].kpage)
    {
      var k := pagedir[key].kpage;
      CoherentFrame(frames, pagedir, key);
      ghost var i := FrameIndex(frames, k).value;
      DropFrame(frames, i, key);
      FrameFreePage(k);
      pagedir := pagedir - {key};
    }
  }
}
