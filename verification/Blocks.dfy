module Wrappers {
  datatype Option<+T> = None | Some(value: T)
}

// Device blocks and the flat disk that every layer above the block cache sees.
module Blocks {
  const BLOCK_SIZE := 512

  function Zeros(n: nat): (z: seq<bv8>)
    ensures |z| == n
  {
    seq(n, _ => 0)
  }

  type Block = s: seq<bv8> | |s| == BLOCK_SIZE witness Zeros(BLOCK_SIZE)

  /** A disk holds the blocks written so far; a block never written reads as zeros. */
  type Disk = map<nat, Block>

  function BlockAt(disk: Disk, b: nat): Block {
    if b in disk then disk[b] else Zeros(BLOCK_SIZE)
  }

  /** Two disks that no read can tell apart. */
  ghost predicate SameBlocks(d: Disk, e: Disk) {
    forall b: nat :: BlockAt(d, b) == BlockAt(e, b)
  }
}
