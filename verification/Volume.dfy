// The flat disk above the block cache, by region: blocks of bytes for the maps and the
// data, and the blocks of the inode region as inode records.
module Volumes {
  import opened Blocks
  import opened BlockMaps

  /** The fields of inode_t that the file and directory code uses. */
  datatype InodeRecord = InodeRecord(
    path: string,
    isDirectory: bool,
    isFile: bool,
    self: nat,
    parent: nat,
    refcount: nat,
    next: nat,
    size: nat,
    pos: nat,
    current: nat,
    currentParent: nat,
    iblock: int)

  type Inodes = map<nat, InodeRecord>

  const ZERO_INODE := InodeRecord("", false, false, 0, 0, 0, 0, 0, 0, 0, 0, 0)

  class Volume {
    var blocks: Disk
    var inodes: Inodes

    constructor (blocks: Disk, inodes: Inodes)
      ensures this.blocks == blocks && this.inodes == inodes
    {
      this.blocks, this.inodes := blocks, inodes;
    }

    method BlockRead(b: nat) returns (d: Block)
      ensures d == BlockAt(blocks, b)
    {
      return BlockAt(blocks, b);
    }

    /** block_read into a block_map_t. */
    method MapRead(b: nat) returns (m: BlockMap)
      ensures m == MapAt(blocks, b)
    {
      return MapAt(blocks, b);
    }

    method BlockWrite(b: nat, d: Block)
      modifies this`blocks
      ensures blocks == old(blocks)[b := d]
    {
      blocks := blocks[b := d];
    }

    method InodeWrite(b: nat, inode: InodeRecord)
      modifies this`inodes
      ensures inodes == old(inodes)[b := inode]
    {
      inodes := inodes[b := inode];
    }
  }
}
