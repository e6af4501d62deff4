/** The swap store of the virtual-memory manager (vm/swap.c): a bitmap with
    one bit per sector of the swap device, allocated and released in runs
    of eight sectors, one page each. */
module Swap {
  import opened Wrappers
  import opened Bytes

  /** A page occupies 4096 / 512 = 8 consecutive sectors. */
  const SECTORS_PER_PAGE: nat := 8

  /** The bitmap with the run of eight bits from s set to v. */
  function SetRun(used: seq<bool>, s: nat, v: bool): (r: seq<bool>)
    ensures |r| == |used|
  {
    seq(|used|, i requires 0 <= i < |used| => if s <= i < s + SECTORS_PER_PAGE then v else used[i])
  }

  predicate RunFree(used: seq<bool>, s: nat)
  {
    s + SECTORS_PER_PAGE <= |used| && forall i :: s <= i < s + SECTORS_PER_PAGE ==> !used[i]
  }

  /** The i-th sector's worth of a page. */
  function Chunk(page: seq<byte>, i: nat): seq<byte>
    requires |page| == PGSIZE && i < SECTORS_PER_PAGE
  {
    page[SECTOR_SIZE * i .. SECTOR_SIZE * (i + 1)]
  }

  /** The device after the page's eight chunks are written from sector s. */
  function WritePage(sectors: seq<seq<byte>>, s: nat, page: seq<byte>): (r: seq<seq<byte>>)
    requires |page| == PGSIZE && s + SECTORS_PER_PAGE <= |sectors|
    ensures |r| == |sectors|
  {
    seq(|sectors|, i requires 0 <= i < |sectors| =>
      if s <= i < s + SECTORS_PER_PAGE then Chunk(page, i - s) else sectors[i])
  }

  /** The eight sectors from s, concatenated. */
  function ReadPage(sectors: seq<seq<byte>>, s: nat): seq<byte>
    requires s + SECTORS_PER_PAGE <= |sectors|
  {
    ReadSectors(sectors, s, SECTORS_PER_PAGE)
  }

  function ReadSectors(sectors: seq<seq<byte>>, s: nat, n: nat): seq<byte>
    requires s + n <= |sectors|
  {
    if n == 0 then [] else ReadSectors(sectors, s, n - 1) + sectors[s + n - 1]
  }

  lemma {:induction false} ReadSectorsChunks(sectors: seq<seq<byte>>, s: nat, page: seq<byte>, n: nat)
    requires |page| == PGSIZE && s + SECTORS_PER_PAGE <= |sectors| && n <= SECTORS_PER_PAGE
    ensures ReadSectors(WritePage(sectors, s, page), s, n) == page[..SECTOR_SIZE * n]
  {
    if n > 0 {
      ReadSectorsChunks(sectors, s, page, n - 1);
      assert page[..SECTOR_SIZE * n] == page[..SECTOR_SIZE * (n - 1)] + Chunk(page, n - 1);
    }
  }

  /** Writing a page to a free run and reading it back gives the page back
      and leaves the bitmap as it was. */
  lemma SwapRoundTrip(used: seq<bool>, sectors: seq<seq<byte>>, s: nat, page: seq<byte>)
    requires |page| == PGSIZE && |sectors| == |used| && RunFree(used, s)
    ensures ReadPage(WritePage(sectors, s, page), s) == page
    ensures SetRun(SetRun(used, s, true), s, false) == used
  {
    ReadSectorsChunks(sectors, s, page, SECTORS_PER_PAGE);
    assert page[..SECTOR_SIZE * SECTORS_PER_PAGE] == page;
  }

  class SwapStore {
    /** swap_table: true for a sector in use */
    var used: seq<bool>
    /** the contents of the swap block device, one entry per sector */
    var sectors: seq<seq<byte>>
    /** block_size of the swap device */
    const size: nat

    ghost predicate Valid()
      reads this
    {
      |used| == size && |sectors| == size && forall i :: 0 <= i < |sectors| ==> |sectors[i]| == SECTOR_SIZE
    }

    /** swap_init: one bit per sector of the device, all free. */
    constructor (device: seq<seq<byte>>)
      requires forall i :: 0 <= i < |device| ==> |device[i]| == SECTOR_SIZE
      ensures Valid() && sectors == device && size == |device|
      ensures |used| == |device| && forall i :: 0 <= i < |used| ==> !used[i]
    {
      used := seq(|device|, _ => false);
      sectors := device;
      size := |device|;
    }

    /** The scan of bitmap_scan_and_flip (start 0, count 8, value false):
        the first run of eight free sectors. */
    method FindFreeRun() returns (r: Option<nat>)
      requires Valid()
      ensures r.Some? ==> RunFree(used, r.value)
      ensures r.Some? ==> forall s :: 0 <= s < r.value ==> !RunFree(used, s)
      ensures r.None? ==> forall s :: 0 <= s ==> !RunFree(used, s)
    {
      if |used| < SECTORS_PER_PAGE {
        return None;
      }
      var s := 0;
      while s + SECTORS_PER_PAGE <= |used|
        invariant forall t :: 0 <= t < s ==> !RunFree(used, t)
        decreases |used| - s
      {
        var j := 0;
        while j < SECTORS_PER_PAGE && !used[s + j]
          invariant 0 <= j <= SECTORS_PER_PAGE
          invariant forall i :: s <= i < s + j ==> !used[i]
        {
          j := j + 1;
        }
        if j == SECTORS_PER_PAGE {
          return Some(s);
        }
        assert used[s + j];
        s := s + 1;
      }
      return None;
    }

    /** get_new_swap_slot: claim the first free run. None stands for the
        syscall_exit (-1) taken when the device is full. */
    method GetNewSwapSlot() returns (slot: Option<nat>)
      requires Valid()
      modifies this`used
      ensures Valid()
      ensures slot.None? ==> used == old(used) && forall s :: 0 <= s ==> !RunFree(used, s)
      ensures slot.Some? ==> RunFree(old(used), slot.value) && used == SetRun(old(used), slot.value, true)
      ensures slot.Some? ==> forall s :: 0 <= s < slot.value ==> !RunFree(old(used), s)
    {
      slot := FindFreeRun();
      if slot.Some? {
        used := SetRun(used, slot.value, true);
      }
    }

    /** swap_release: clear exactly the eight bits from s. */
    method Release(s: nat)
      requires Valid() && s + SECTORS_PER_PAGE <= |used|
      modifies this`used
      ensures Valid()
      ensures used == SetRun(old(used), s, false)
    {
      used := SetRun(used, s, false);
    }

    /** The sector loop of write_frame_to_block: sector s + i receives
        bytes [512 i, 512 i + 512) of the page. */
    method WriteFrame(s: nat, page: seq<byte>)
      requires Valid() && |page| == PGSIZE && s + SECTORS_PER_PAGE <= |sectors|
      modifies this`sectors
      ensures Valid()
      ensures sectors == WritePage(old(sectors), s, page)
    {
      var i := 0;
      while i < SECTORS_PER_PAGE
        invariant 0 <= i <= SECTORS_PER_PAGE && |sectors| == |old(sectors)| && Valid()
        invariant forall j :: 0 <= j < |sectors| ==>
          sectors[j] == if s <= j < s + i then Chunk(page, j - s) else old(sectors)[j]
      {
        sectors := sectors[s + i := Chunk(page, i)];
        i := i + 1;
      }
    }

    /** read_frame_from_block: read sectors s .. s + 7 into a page, then
        release them. */
    method ReadFrame(s: nat) returns (page: seq<byte>)
      requires Valid() && s + SECTORS_PER_PAGE <= |used|
      modifies this`used
      ensures Valid()
      ensures page == ReadPage(sectors, s) && |page| == PGSIZE
      ensures used == SetRun(old(used), s, false)
    {
      page := [];
      var i := 0;
      while i < SECTORS_PER_PAGE
        invariant 0 <= i <= SECTORS_PER_PAGE
        invariant page == ReadSectors(sectors, s, i) && |page| == SECTOR_SIZE * i
      {
        page := page + sectors[s + i];
        i := i + 1;
      }
      Release(s);
    }
  }
}
