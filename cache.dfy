/** The buffer cache of project 4 (filesys/cache.c): 64 slots, each
    holding one sector's bytes with its sector number, an in-use and a
    dirty flag and the tick of its last access. timer_ticks is the
    parameter now. The spec functions describe each operation on the
    slots and the disk as values; the class performs it in place. */
module Cache {
  import opened Wrappers
  import opened Bytes
  import opened Block

  /** MAX_BUFFER_CACHE_SIZE (filesys/cache.h) */
  const CACHE_SIZE: nat := 64

  /** struct buffer_cache */
  datatype Entry = Entry(inuse: bool, dirty: bool, time: int, sector: Sector, data: seq<byte>)

  /** The slots and the disk behind them. */
  datatype CacheState = CacheState(slots: seq<Entry>, disk: Disk)

  /** A slot as the memset of buffer_cache_init leaves it. */
  const EMPTY: Entry := Entry(false, false, 0, 0, Zeros(SECTOR_SIZE))

  /** Every slot holds one sector's bytes. */
  ghost predicate SlotsHold(slots: seq<Entry>)
  {
    forall i :: 0 <= i < |slots| ==> |slots[i].data| == SECTOR_SIZE
  }

  ghost predicate Good(st: CacheState)
  {
    |st.slots| == CACHE_SIZE && SlotsHold(st.slots) && Sectors(st.disk)
  }

  // ---------------------------------------------------------------------
  // The operations on values

  /** buffer_cache_entry_init: the sector's bytes from the disk, stamped
      now, clean, and not marked in use. */
  function EntryInit(d: Disk, sector: Sector, now: int): Entry
  {
    Entry(false, false, now, sector, ReadSector(d, sector))
  }

  /** buffer_cache_entry_flush: the slot's bytes go to its sector only
      when it is both in use and dirty. */
  function Flush(d: Disk, e: Entry): (d': Disk)
    requires |e.data| == SECTOR_SIZE
    ensures Sectors(d) ==> Sectors(d')
    ensures e.inuse && e.dirty ==> ReadSector(d', e.sector) == e.data
    ensures forall t :: t != e.sector || !(e.inuse && e.dirty) ==> ReadSector(d', t) == ReadSector(d, t)
  {
    if e.inuse && e.dirty then WriteSector(d, e.sector, e.data) else d
  }

  /** The first slot recording sector, whether or not it is in use. */
  function HitIndex(slots: seq<Entry>, sector: Sector): (r: Option<nat>)
    ensures r.None? <==> forall i :: 0 <= i < |slots| ==> slots[i].sector != sector
    ensures r.Some? ==>
      (r.value < |slots| && slots[r.value].sector == sector
       && forall i :: 0 <= i < r.value ==> slots[i].sector != sector)
  {
    if slots == [] then None
    else if slots[0].sector == sector then Some(0)
    else match HitIndex(slots[1..], sector)
      case None => None
      case Some(j) => Some(j + 1)
  }

  /** The first slot not in use. */
  function FreeIndex(slots: seq<Entry>): (r: Option<nat>)
    ensures r.None? <==> forall i :: 0 <= i < |slots| ==> slots[i].inuse
    ensures r.Some? ==>
      (r.value < |slots| && !slots[r.value].inuse
       && forall i :: 0 <= i < r.value ==> slots[i].inuse)
  {
    if slots == [] then None
    else if !slots[0].inuse then Some(0)
    else match FreeIndex(slots[1..])
      case None => None
      case Some(j) => Some(j + 1)
  }

  /** The least recently used of the first n slots: the lowest index
      among those of least time. */
  function LruIndex(slots: seq<Entry>, n: nat): (k: nat)
    requires 0 < n <= |slots|
    ensures k < n
    ensures forall i :: 0 <= i < n ==> slots[k].time <= slots[i].time
    ensures forall i :: 0 <= i < k ==> slots[i].time > slots[k].time
  {
    if n == 1 then 0
    else
      var k := LruIndex(slots, n - 1);
      if slots[n - 1].time < slots[k].time then n - 1 else k
  }

  /** buffer_cache_get on values: the slot of sector, refreshed, on a
      hit; otherwise the first free slot, or the flushed LRU slot, loaded
      with the sector. */
  function CacheGet(st: CacheState, sector: Sector, now: int): (r: (CacheState, nat))
    requires Good(st)
    ensures Good(r.0) && r.1 < CACHE_SIZE
    ensures r.0.slots[r.1].sector == sector && r.0.slots[r.1].time == now
    ensures forall j :: 0 <= j < CACHE_SIZE && j != r.1 ==> r.0.slots[j] == st.slots[j]
    ensures HitIndex(st.slots, sector).Some? ==>
      (r.1 == HitIndex(st.slots, sector).value && r.0.disk == st.disk
       && r.0.slots[r.1] == st.slots[r.1].(time := now))
    ensures HitIndex(st.slots, sector).None? ==>
      (r.1 == MissSlot(st.slots)
       && r.0.disk == (if FreeIndex(st.slots).Some? then st.disk else Flush(st.disk, st.slots[r.1]))
       && r.0.slots[r.1] == EntryInit(r.0.disk, sector, now))
  {
    match HitIndex(st.slots, sector)
    case Some(i) =>
      (CacheState(st.slots[i := st.slots[i].(time := now)], st.disk), i)
    case None =>
      match FreeIndex(st.slots)
      case Some(f) =>
        (CacheState(st.slots[f := EntryInit(st.disk, sector, now)], st.disk), f)
      case None =>
        var v := LruIndex(st.slots, CACHE_SIZE);
        var d := Flush(st.disk, st.slots[v]);
        (CacheState(st.slots[v := EntryInit(d, sector, now)], d), v)
  }

  /** The slot a miss fills: the first free one, else the LRU one. */
  function MissSlot(slots: seq<Entry>): (v: nat)
    requires |slots| == CACHE_SIZE
    ensures v < CACHE_SIZE
    ensures FreeIndex(slots).Some? ==> v == FreeIndex(slots).value
    ensures FreeIndex(slots).None? ==> v == LruIndex(slots, CACHE_SIZE)
  {
    match FreeIndex(slots)
    case Some(f) => f
    case None => LruIndex(slots, CACHE_SIZE)
  }

  /** buffer_cache_read on values: the state after the lookup and the
      bytes of the slot found. */
  function CacheRead(st: CacheState, sector: Sector, now: int): (r: (CacheState, seq<byte>))
    requires Good(st)
    ensures Good(r.0) && |r.1| == SECTOR_SIZE
  {
    var (st', i) := CacheGet(st, sector, now);
    (st', st'.slots[i].data)
  }

  /** buffer_cache_write on values: the slot found is marked dirty and
      takes the bytes. */
  function CacheWrite(st: CacheState, sector: Sector, buf: seq<byte>, now: int): (r: CacheState)
    requires Good(st) && |buf| == SECTOR_SIZE
    ensures Good(r)
  {
    var (st', i) := CacheGet(st, sector, now);
    CacheState(st'.slots[i := st'.slots[i].(dirty := true, data := buf)], st'.disk)
  }

  /** The disk after flushing the slots in order. */
  function FlushAll(d: Disk, slots: seq<Entry>): (d': Disk)
    requires SlotsHold(slots)
    ensures Sectors(d) ==> Sectors(d')
  {
    if slots == [] then d else Flush(FlushAll(d, slots[..|slots| - 1]), slots[|slots| - 1])
  }

  /** The state buffer_cache_init leaves. */
  function Initial(d: Disk): (st: CacheState)
  {
    CacheState(seq(CACHE_SIZE, _ => EMPTY), d)
  }

  // ---------------------------------------------------------------------
  // Properties

  /** A read right after a write of the same sector returns the bytes
      written. */
  lemma ReadAfterWrite(st: CacheState, sector: Sector, buf: seq<byte>, t1: int, t2: int)
    requires Good(st) && |buf| == SECTOR_SIZE
    ensures CacheRead(CacheWrite(st, sector, buf, t1), sector, t2).1 == buf
  {
    var (st1, i) := CacheGet(st, sector, t1);
    var w := CacheWrite(st, sector, buf, t1);
    assert w.slots[i].sector == sector;
    forall j | 0 <= j < i
      ensures w.slots[j].sector != sector
    {
      assert w.slots[j] == st1.slots[j];
      if HitIndex(st.slots, sector).Some? {
        assert st1.slots[j] == st.slots[j];
      } else {
        assert st1.slots[j] == st.slots[j];
      }
    }
    assert HitIndex(w.slots, sector) == Some(i);
  }

  /** No slot in use. */
  ghost predicate NoneInUse(slots: seq<Entry>)
  {
    forall i :: 0 <= i < |slots| ==> !slots[i].inuse
  }

  /** Flushing slots none of which is in use writes nothing. */
  lemma {:induction false} FlushAllUnused(d: Disk, slots: seq<Entry>)
    requires SlotsHold(slots) && NoneInUse(slots)
    ensures FlushAll(d, slots) == d
  {
    if slots != [] {
      FlushAllUnused(d, slots[..|slots| - 1]);
    }
  }

  /** As written, no slot ever becomes in use, so no lookup or write
      changes the disk. */
  lemma GetKeepsUnused(st: CacheState, sector: Sector, now: int)
    requires Good(st) && NoneInUse(st.slots)
    ensures NoneInUse(CacheGet(st, sector, now).0.slots) && CacheGet(st, sector, now).0.disk == st.disk
  {
    var (st', i) := CacheGet(st, sector, now);
    forall j | 0 <= j < CACHE_SIZE
      ensures !st'.slots[j].inuse
    {
      if j != i {
        assert st'.slots[j] == st.slots[j];
      }
    }
  }

  lemma WriteKeepsUnused(st: CacheState, sector: Sector, buf: seq<byte>, now: int)
    requires Good(st) && NoneInUse(st.slots) && |buf| == SECTOR_SIZE
    ensures NoneInUse(CacheWrite(st, sector, buf, now).slots) && CacheWrite(st, sector, buf, now).disk == st.disk
  {
    GetKeepsUnused(st, sector, now);
  }

  /** The bytes of a write after buffer_cache_init never reach the disk:
      closing the cache right after leaves the disk as it was. */
  lemma CloseLosesWrite(d: Disk, sector: Sector, buf: seq<byte>, now: int)
    requires Sectors(d) && |buf| == SECTOR_SIZE
    ensures var st := CacheWrite(Initial(d), sector, buf, now); FlushAll(st.disk, st.slots) == d
  {
    var st0 := Initial(d);
    assert NoneInUse(st0.slots);
    WriteKeepsUnused(st0, sector, buf, now);
    var st := CacheWrite(st0, sector, buf, now);
    FlushAllUnused(st.disk, st.slots);
  }

  /** After buffer_cache_init every slot records sector 0, so reading
      sector 0 hits slot 0 and returns zeros, whatever the disk holds. */
  lemma SectorZeroMasked(d: Disk, now: int)
    requires Sectors(d)
    ensures CacheRead(Initial(d), 0, now).1 == Zeros(SECTOR_SIZE)
  {
    assert HitIndex(Initial(d).slots, 0) == Some(0);
  }

  // ---------------------------------------------------------------------
  // The cache as intended: entry_init marks the slot in use and only
  // slots in use can hit

  /** buffer_cache_entry_init, marking the slot in use. */
  function FixedEntryInit(d: Disk, sector: Sector, now: int): Entry
  {
    Entry(true, false, now, sector, ReadSector(d, sector))
  }

  /** The first slot in use that records sector. */
  function FixedHit(slots: seq<Entry>, sector: Sector): (r: Option<nat>)
    ensures r.None? <==> forall i :: 0 <= i < |slots| ==> !(slots[i].inuse && slots[i].sector == sector)
    ensures r.Some? ==>
      (r.value < |slots| && slots[r.value].inuse && slots[r.value].sector == sector
       && forall i :: 0 <= i < r.value ==> !(slots[i].inuse && slots[i].sector == sector))
  {
    if slots == [] then None
    else if slots[0].inuse && slots[0].sector == sector then Some(0)
    else match FixedHit(slots[1..], sector)
      case None => None
      case Some(j) => Some(j + 1)
  }

  /** buffer_cache_get with both corrections. */
  function FixedGet(st: CacheState, sector: Sector, now: int): (r: (CacheState, nat))
    requires Good(st)
    ensures Good(r.0) && r.1 < CACHE_SIZE
    ensures forall j :: 0 <= j < CACHE_SIZE && j != r.1 ==> r.0.slots[j] == st.slots[j]
  {
    match FixedHit(st.slots, sector)
    case Some(i) =>
      (CacheState(st.slots[i := st.slots[i].(time := now)], st.disk), i)
    case None =>
      match FreeIndex(st.slots)
      case Some(f) =>
        (CacheState(st.slots[f := FixedEntryInit(st.disk, sector, now)], st.disk), f)
      case None =>
        var v := LruIndex(st.slots, CACHE_SIZE);
        var d := Flush(st.disk, st.slots[v]);
        (CacheState(st.slots[v := FixedEntryInit(d, sector, now)], d), v)
  }

  function FixedRead(st: CacheState, sector: Sector, now: int): (r: (CacheState, seq<byte>))
    requires Good(st)
    ensures Good(r.0) && |r.1| == SECTOR_SIZE
  {
    var (st', i) := FixedGet(st, sector, now);
    (st', st'.slots[i].data)
  }

  function FixedWrite(st: CacheState, sector: Sector, buf: seq<byte>, now: int): (r: CacheState)
    requires Good(st) && |buf| == SECTOR_SIZE
    ensures Good(r)
  {
    var (st', i) := FixedGet(st, sector, now);
    CacheState(st'.slots[i := st'.slots[i].(dirty := true, data := buf)], st'.disk)
  }

  /** What a reader of sector s should see: the cached bytes, if s is
      cached, else the disk's. */
  function View(st: CacheState, s: Sector): seq<byte>
  {
    match FixedHit(st.slots, s)
    case Some(i) => st.slots[i].data
    case None => ReadSector(st.disk, s)
  }

  /** No sector is cached twice, and a clean slot in use agrees with the
      disk. */
  ghost predicate Coherent(st: CacheState)
  {
    && Good(st)
    && (forall i, j :: (0 <= i < |st.slots| && 0 <= j < |st.slots| && i != j
          && st.slots[i].inuse && st.slots[j].inuse) ==> st.slots[i].sector != st.slots[j].sector)
    && (forall i :: 0 <= i < |st.slots| && st.slots[i].inuse && !st.slots[i].dirty
          ==> st.slots[i].data == ReadSector(st.disk, st.slots[i].sector))
  }

  /** In a coherent state, the slot in use recording a sector is the one
      FixedHit finds, and a reader of that sector sees its bytes. */
  lemma ViewHit(st: CacheState, i: nat)
    requires Coherent(st) && i < |st.slots| && st.slots[i].inuse
    ensures FixedHit(st.slots, st.slots[i].sector) == Some(i)
    ensures View(st, st.slots[i].sector) == st.slots[i].data
  {
  }

  /** With no slot in use for a sector, a reader sees the disk. */
  lemma ViewMiss(st: CacheState, s: Sector)
    requires forall i :: 0 <= i < |st.slots| ==> !(st.slots[i].inuse && st.slots[i].sector == s)
    ensures View(st, s) == ReadSector(st.disk, s)
  {
  }

  lemma InitialCoherent(d: Disk)
    requires Sectors(d)
    ensures Coherent(Initial(d))
    ensures forall s :: View(Initial(d), s) == ReadSector(d, s)
  {
  }

  /** Two coherent states that agree on the sectors in use and on the
      data a reader sees for each of them, and on the disk elsewhere,
      give every reader the same bytes. */
  lemma SameView(st: CacheState, st': CacheState, s: Sector)
    requires Coherent(st) && Coherent(st')
    requires forall i :: 0 <= i < CACHE_SIZE && st.slots[i].inuse && st.slots[i].sector == s ==>
      (st'.slots[i].inuse && st'.slots[i].sector == s && st'.slots[i].data == st.slots[i].data)
    requires forall i :: 0 <= i < CACHE_SIZE && st'.slots[i].inuse && st'.slots[i].sector == s ==>
      st.slots[i].inuse && st.slots[i].sector == s
    requires FixedHit(st.slots, s).None? ==> ReadSector(st'.disk, s) == ReadSector(st.disk, s)
    ensures View(st', s) == View(st, s)
  {
    match FixedHit(st.slots, s)
    case Some(i) =>
      ViewHit(st, i);
      ViewHit(st', i);
    case None =>
      ViewMiss(st', s);
  }

  /** The corrected lookup keeps the cache coherent and changes what no
      reader sees. */
  lemma {:induction false} FixedGetKeepsView(st: CacheState, sector: Sector, now: int)
    requires Coherent(st)
    ensures Coherent(FixedGet(st, sector, now).0)
    ensures forall s :: View(FixedGet(st, sector, now).0, s) == View(st, s)
    ensures var (st', i) := FixedGet(st, sector, now);
      st'.slots[i].inuse && st'.slots[i].sector == sector
  {
    var (st', k) := FixedGet(st, sector, now);
    match FixedHit(st.slots, sector)
    case Some(i) =>
      assert k == i;
      assert Coherent(st');
      forall s ensures View(st', s) == View(st, s) {
        SameView(st, st', s);
      }
    case None =>
      match FreeIndex(st.slots)
      case Some(f) =>
        assert k == f && st'.disk == st.disk;
        assert Coherent(st');
        forall s ensures View(st', s) == View(st, s) {
          if s == sector {
            ViewHit(st', f);
            ViewMiss(st, s);
          } else {
            SameView(st, st', s);
          }
        }
      case None =>
        FixedEvictKeepsView(st, sector, now);
  }

  /** The eviction case of FixedGetKeepsView: the least recently used
      slot is flushed and refilled. */
  lemma FixedEvictKeepsView(st: CacheState, sector: Sector, now: int)
    requires Coherent(st) && FixedHit(st.slots, sector).None? && FreeIndex(st.slots).None?
    ensures Coherent(FixedGet(st, sector, now).0)
    ensures forall s :: View(FixedGet(st, sector, now).0, s) == View(st, s)
    ensures var (st', i) := FixedGet(st, sector, now);
      st'.slots[i].inuse && st'.slots[i].sector == sector
  {
    var (st', k) := FixedGet(st, sector, now);
    var v := LruIndex(st.slots, CACHE_SIZE);
    var d := Flush(st.disk, st.slots[v]);
    var old_s := st.slots[v].sector;
    assert k == v && st'.disk == d;
    assert old_s != sector;
    forall j | 0 <= j < CACHE_SIZE && j != v && st.slots[j].inuse
      ensures ReadSector(d, st.slots[j].sector) == ReadSector(st.disk, st.slots[j].sector)
    {
      assert st.slots[j].sector != old_s;
    }
    assert Coherent(st');
    forall s ensures View(st', s) == View(st, s) {
      if s == sector {
        ViewHit(st', v);
        ViewMiss(st, s);
      } else if s == old_s {
        ViewHit(st, v);
        forall i | 0 <= i < CACHE_SIZE
          ensures !(st'.slots[i].inuse && st'.slots[i].sector == s)
        {
          if i != v {
            assert st'.slots[i] == st.slots[i];
          }
        }
        ViewMiss(st', s);
      } else {
        SameView(st, st', s);
      }
    }
  }

  /** A corrected read returns what a reader of the sector sees. */
  lemma FixedReadSeesView(st: CacheState, sector: Sector, now: int)
    requires Coherent(st)
    ensures FixedRead(st, sector, now).1 == View(st, sector)
    ensures Coherent(FixedRead(st, sector, now).0)
    ensures forall s :: View(FixedRead(st, sector, now).0, s) == View(st, s)
  {
    FixedGetKeepsView(st, sector, now);
    var (st', i) := FixedGet(st, sector, now);
    ViewHit(st', i);
  }

  /** A corrected write changes what readers of that sector see to the
      bytes written, and nothing else. */
  lemma FixedWriteSetsView(st: CacheState, sector: Sector, buf: seq<byte>, now: int)
    requires Coherent(st) && |buf| == SECTOR_SIZE
    ensures Coherent(FixedWrite(st, sector, buf, now))
    ensures forall s :: View(FixedWrite(st, sector, buf, now), s) == if s == sector then buf else View(st, s)
  {
    FixedGetKeepsView(st, sector, now);
    var (st', i) := FixedGet(st, sector, now);
    var w := FixedWrite(st, sector, buf, now);
    assert Coherent(w);
    forall s ensures View(w, s) == if s == sector then buf else View(st, s) {
      if s == sector {
        ViewHit(w, i);
      } else {
        SameView(st', w, s);
      }
    }
  }

  /** Flushing leaves a sector alone when no slot in use and dirty
      records it. */
  lemma {:induction false} FlushAllKeeps(d: Disk, slots: seq<Entry>, s: Sector)
    requires SlotsHold(slots)
    requires forall j :: 0 <= j < |slots| ==> !(slots[j].inuse && slots[j].dirty && slots[j].sector == s)
    ensures ReadSector(FlushAll(d, slots), s) == ReadSector(d, s)
  {
    if slots != [] {
      FlushAllKeeps(d, slots[..|slots| - 1], s);
    }
  }

  /** Flushing stores the bytes of the one slot in use recording a
      sector, when that slot is dirty. */
  lemma {:induction false} FlushAllStores(d: Disk, slots: seq<Entry>, s: Sector, i: nat)
    requires SlotsHold(slots) && i < |slots|
    requires slots[i].inuse && slots[i].dirty && slots[i].sector == s
    requires forall j :: 0 <= j < |slots| && j != i ==> !(slots[j].inuse && slots[j].sector == s)
    ensures ReadSector(FlushAll(d, slots), s) == slots[i].data
  {
    var n := |slots| - 1;
    if i != n {
      FlushAllStores(d, slots[..n], s, i);
    }
  }

  /** buffer_cache_close, corrected, leaves on the disk exactly what
      readers saw. */
  lemma FixedCloseStoresView(st: CacheState, s: Sector)
    requires Coherent(st)
    ensures ReadSector(FlushAll(st.disk, st.slots), s) == View(st, s)
  {
    match FixedHit(st.slots, s)
    case Some(i) =>
      ViewHit(st, i);
      if st.slots[i].dirty {
        FlushAllStores(st.disk, st.slots, s, i);
      } else {
        FlushAllKeeps(st.disk, st.slots, s);
      }
    case None =>
      FlushAllKeeps(st.disk, st.slots, s);
  }

  // ---------------------------------------------------------------------
  // The cache in place

  class BufferCache {
    /** caches[] */
    const slots: array<Entry>
    /** fs_device */
    var disk: Disk

    ghost predicate Valid()
      reads this, slots
    {
      Good(State())
    }

    ghost function State(): CacheState
      reads this, slots
    {
      CacheState(slots[..], disk)
    }

    /** The static array, as buffer_cache_init leaves it. */
    constructor (d: Disk)
      requires Sectors(d)
      ensures Valid() && State() == Initial(d) && fresh(slots)
    {
      slots := new Entry[CACHE_SIZE](_ => EMPTY);
      disk := d;
    }

    /** buffer_cache_init: every slot zeroed. */
    method Init()
      requires Valid()
      modifies slots
      ensures Valid() && State() == Initial(disk)
    {
      var i := 0;
      while i < CACHE_SIZE
        invariant 0 <= i <= CACHE_SIZE && Valid()
        invariant forall j :: 0 <= j < i ==> slots[j] == EMPTY
      {
        slots[i] := EMPTY;
        i := i + 1;
      }
    }

    /** buffer_cache_evict_one: the LRU slot, flushed. */
    method EvictOne() returns (index: int)
      requires Valid()
      modifies this`disk
      ensures Valid() && 0 <= index < CACHE_SIZE
      ensures index == LruIndex(slots[..], CACHE_SIZE)
      ensures disk == Flush(old(disk), slots[index])
    {
      var minTime := slots[0].time;
      index := 0;
      var i := 1;
      while i < CACHE_SIZE
        invariant 1 <= i <= CACHE_SIZE
        invariant index == LruIndex(slots[..], i) && minTime == slots[index].time
      {
        if slots[i].time < minTime {
          minTime := slots[i].time;
          index := i;
        }
        i := i + 1;
      }
      disk := Flush(disk, slots[index]);
    }

    /** buffer_cache_get */
    method Get(sector: Sector, now: int) returns (index: int)
      requires Valid()
      modifies this, slots
      ensures Valid()
      ensures 0 <= index && (State(), index as nat) == CacheGet(old(State()), sector, now)
    {
      ghost var st := State();
      index := -1;
      var freeIndex := -1;
      var i := 0;
      while i < CACHE_SIZE
        invariant 0 <= i <= CACHE_SIZE && index == -1
        invariant forall j :: 0 <= j < i ==> slots[j].sector != sector
        invariant freeIndex == -1 ==> forall j :: 0 <= j < i ==> slots[j].inuse
        invariant freeIndex != -1 ==>
          (0 <= freeIndex < i && !slots[freeIndex].inuse
           && forall j :: 0 <= j < freeIndex ==> slots[j].inuse)
      {
        if freeIndex == -1 && !slots[i].inuse {
          freeIndex := i;
        }
        if slots[i].sector == sector {
          index := i;
          break;
        }
        i := i + 1;
      }
      if index != -1 {
        assert HitIndex(st.slots, sector) == Some(index);
        slots[index] := slots[index].(time := now);
        return;
      }
      assert HitIndex(st.slots, sector).None?;
      if freeIndex == -1 {
        assert FreeIndex(st.slots).None?;
        freeIndex := EvictOne();
      } else {
        assert FreeIndex(st.slots) == Some(freeIndex);
      }
      slots[freeIndex] := EntryInit(disk, sector, now);
      index := freeIndex;
    }

    /** buffer_cache_read */
    method Read(sector: Sector, now: int) returns (buf: seq<byte>)
      requires Valid()
      modifies this, slots
      ensures Valid()
      ensures (State(), buf) == CacheRead(old(State()), sector, now)
    {
      var index := Get(sector, now);
      buf := slots[index].data;
    }

    /** buffer_cache_write */
    method Write(sector: Sector, buf: seq<byte>, now: int)
      requires Valid() && |buf| == SECTOR_SIZE
      modifies this, slots
      ensures Valid()
      ensures State() == CacheWrite(old(State()), sector, buf, now)
    {
      var index := Get(sector, now);
      slots[index] := slots[index].(dirty := true);
      slots[index] := slots[index].(data := buf);
    }

    /** buffer_cache_close: every slot flushed, in order. */
    method Close()
      requires Valid()
      modifies this`disk
      ensures Valid() && disk == FlushAll(old(disk), slots[..])
    {
      var i := 0;
      while i < CACHE_SIZE
        invariant 0 <= i <= CACHE_SIZE && Valid()
        invariant disk == FlushAll(old(disk), slots[..i])
      {
        assert slots[..i + 1][..i] == slots[..i];
        disk := Flush(disk, slots[i]);
        i := i + 1;
      }
      assert slots[..] == slots[..CACHE_SIZE];
    }
  }
}
