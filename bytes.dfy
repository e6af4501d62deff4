/** Bytes and the page and sector sizes shared by the kernel components. */
module Bytes {

  newtype byte = x: int | 0 <= x < 256

  /** PGSIZE (threads/vaddr.h) */
  const PGSIZE: nat := 4096
  /** BLOCK_SECTOR_SIZE (devices/block.h) */
  const SECTOR_SIZE: nat := 512

  function Zeros(n: nat): (z: seq<byte>)
    ensures |z| == n && forall i :: 0 <= i < n ==> z[i] == 0
  {
    seq(n, _ => 0)
  }
}
