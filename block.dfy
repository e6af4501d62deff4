/** The file-system block device (devices/block.c is not part of this
    model): a map from sector number to that sector's 512 bytes. A sector
    never written reads as zeros; the device's size is not modelled. */
module Block {
  import opened Bytes

  /** block_sector_t */
  type Sector = nat

  type Disk = map<Sector, seq<byte>>

  /** Every stored sector is one sector long. */
  ghost predicate Sectors(d: Disk)
  {
    forall s :: s in d ==> |d[s]| == SECTOR_SIZE
  }

  /** block_read */
  function ReadSector(d: Disk, s: Sector): (b: seq<byte>)
    ensures |b| == SECTOR_SIZE || (s in d && b == d[s])
    ensures Sectors(d) ==> |b| == SECTOR_SIZE
    ensures s !in d ==> b == Zeros(SECTOR_SIZE)
  {
    if s in d then d[s] else Zeros(SECTOR_SIZE)
  }

  /** block_write */
  function WriteSector(d: Disk, s: Sector, b: seq<byte>): (d': Disk)
    requires |b| == SECTOR_SIZE
    ensures Sectors(d) ==> Sectors(d')
    ensures ReadSector(d', s) == b
    ensures forall t :: t != s ==> ReadSector(d', t) == ReadSector(d, t)
  {
    d[s := b]
  }
}
