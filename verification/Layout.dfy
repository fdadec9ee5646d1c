// The on-disk layout computed by inode_create_fs, and the format it writes.
module Layouts {
  import opened Wrappers
  import opened Blocks
  import opened AllocSpec
  import opened Volumes
  import opened Allocation

  const U32 := 0x1_0000_0000

  /** Regions are half open, in device blocks. */
  datatype Layout = Layout(
    blockStart: nat,
    inodeMapStart: nat,
    inodeMapEnd: nat,
    bmapMapStart: nat,
    bmapMapEnd: nat,
    inodeStart: nat,
    inodeEnd: nat,
    dataStart: nat,
    dataEnd: nat,
    inodes: nat,
    blocks: nat)

  /** Map blocks needed for `n` objects, as the source counts them: 8 * 512 to a map block,
      rounded down, and at least one. */
  function MapBlocks(n: nat): nat {
    if n / 8 / BLOCK_SIZE == 0 then 1 else n / 8 / BLOCK_SIZE
  }

  function LayoutOf(blockStart: nat, bytes: nat): Option<Layout> {
    if bytes % BLOCK_SIZE != 0 then None
    else
      var size := bytes / BLOCK_SIZE;
      var inodes, blocks := size * 20 / 100, size * 80 / 100;
      var imapBlocks, bmapBlocks := MapBlocks(inodes), MapBlocks(blocks);
      var start := blockStart + 1;
      Some(Layout(
        blockStart,
        start, start + imapBlocks,
        start + imapBlocks, start + imapBlocks + bmapBlocks,
        start + imapBlocks + bmapBlocks, start + imapBlocks + bmapBlocks + inodes,
        start + imapBlocks + bmapBlocks + inodes, start + imapBlocks + bmapBlocks + inodes + blocks,
        inodes, blocks))
  }

  /** The last block past every block the inode allocator can return, and the same for data. */
  function InodesReachable(l: Layout): nat
    requires l.inodeMapStart <= l.inodeMapEnd
  {
    l.inodeStart + BITS * (l.inodeMapEnd - l.inodeMapStart)
  }

  function DataReachable(l: Layout): nat
    requires l.bmapMapStart <= l.bmapMapEnd
  {
    l.dataStart + BITS * (l.bmapMapEnd - l.bmapMapStart)
  }

  /** From 2560 blocks up the regions follow each other without overlap, every block either
      allocator can return is nonzero, in its own region and on the device, and nothing
      computed on the way reaches 2^32. */
  lemma LayoutIsSound(blockStart: nat, bytes: nat)
    requires bytes % BLOCK_SIZE == 0 && bytes < U32
    requires bytes / BLOCK_SIZE >= 2560 && blockStart + bytes / BLOCK_SIZE < U32 - 0x80_0000
    ensures LayoutOf(blockStart, bytes).Some?
    ensures var l := LayoutOf(blockStart, bytes).value;
            && blockStart < l.inodeMapStart < l.inodeMapEnd == l.bmapMapStart < l.bmapMapEnd
            && l.bmapMapEnd == l.inodeStart < l.inodeEnd == l.dataStart < l.dataEnd < U32
            && bytes / BLOCK_SIZE * 80 < U32
            && InodesReachable(l) <= l.inodeEnd
            && DataReachable(l) <= l.dataEnd
            && DataReachable(l) <= blockStart + bytes / BLOCK_SIZE
  {
    var size := bytes / BLOCK_SIZE;
    assert size < 0x80_0000;
    MapBlocksBound(size * 20 / 100);
    MapBlocksBound(size * 80 / 100);
  }

  lemma MapBlocksBound(n: nat)
    ensures MapBlocks(n) >= 1
    ensures n < 4096 ==> MapBlocks(n) == 1
    ensures n >= 4096 ==> 4096 * MapBlocks(n) <= n
    ensures n < 4096 * (MapBlocks(n) + 1)
  {
  }

  /** The inode allocator stays inside the inode region exactly from 2560 blocks up; below
      that it hands out blocks of the data region. The data allocator needs 640. */
  lemma RegionsHoldIff(blockStart: nat, bytes: nat)
    requires bytes % BLOCK_SIZE == 0
    ensures var l := LayoutOf(blockStart, bytes).value;
            && (InodesReachable(l) <= l.inodeEnd <==> bytes / BLOCK_SIZE >= 2560)
            && (DataReachable(l) <= l.dataEnd <==> bytes / BLOCK_SIZE >= 640)
  {
    MapBlocksBound(bytes / BLOCK_SIZE * 20 / 100);
    MapBlocksBound(bytes / BLOCK_SIZE * 80 / 100);
  }

  /** The recorded end of the data region always lies past the end of the device. */
  lemma DataEndOvershoots(blockStart: nat, bytes: nat)
    requires bytes % BLOCK_SIZE == 0
    ensures LayoutOf(blockStart, bytes).value.dataEnd >= blockStart + bytes / BLOCK_SIZE + 2
  {
  }

  method ZeroBlocks(vol: Volume, start: nat, end: nat)
    requires start <= end
    modifies vol`blocks
    ensures forall b: nat :: BlockAt(vol.blocks, b) ==
              if start <= b < end then Zeros(BLOCK_SIZE) else old(BlockAt(vol.blocks, b))
  {
    var i := start;
    while i < end
      invariant start <= i <= end
      invariant forall b: nat :: BlockAt(vol.blocks, b) ==
                  if start <= b < i then Zeros(BLOCK_SIZE) else old(BlockAt(vol.blocks, b))
    {
      ghost var before := vol.blocks;
      vol.BlockWrite(i, Zeros(BLOCK_SIZE));
      assert forall b: nat :: b != i ==> BlockAt(vol.blocks, b) == BlockAt(before, b);
      i := i + 1;
    }
  }

  /** The inode records before `start` and from `end` on are what they were. */
  ghost predicate InodesSameOutside(before: Inodes, after: Inodes, start: nat, end: nat) {
    forall b :: b < start || b >= end ==>
      (b in after <==> b in before) && (b in before && b in after ==> after[b] == before[b])
  }

  method ZeroInodes(vol: Volume, start: nat, end: nat)
    requires start <= end
    modifies vol`inodes
    ensures forall b :: start <= b < end ==> b in vol.inodes && vol.inodes[b] == ZERO_INODE
    ensures InodesSameOutside(old(vol.inodes), vol.inodes, start, end)
  {
    var i := start;
    while i < end
      invariant start <= i <= end
      invariant forall b :: start <= b < i ==> b in vol.inodes && vol.inodes[b] == ZERO_INODE
      invariant InodesSameOutside(old(vol.inodes), vol.inodes, start, i)
    {
      vol.InodeWrite(i, ZERO_INODE);
      i := i + 1;
    }
  }

  /** A map of `k` blocks over `n` objects: one for every whole 4096 of them, and at least one. */
  predicate MapSized(k: nat, n: nat) {
    k >= 1 && n < 4096 * (k + 1) && (k == 1 || 4096 * k <= n)
  }

  lemma LayoutOrder(blockStart: nat, bytes: nat)
    ensures var r, size := LayoutOf(blockStart, bytes), bytes / BLOCK_SIZE;
            && (r.None? <==> bytes % BLOCK_SIZE != 0)
            && (r.Some? ==>
                  && MapSized(r.value.inodeMapEnd - r.value.inodeMapStart, size * 20 / 100)
                  && MapSized(r.value.bmapMapEnd - r.value.bmapMapStart, size * 80 / 100)
                  && r.value.blockStart == blockStart && r.value.inodeMapStart == blockStart + 1
                  && r.value.inodeMapEnd == r.value.bmapMapStart && r.value.bmapMapEnd == r.value.inodeStart
                  && r.value.inodeEnd == r.value.dataStart
                  && r.value.inodeEnd - r.value.inodeStart == r.value.inodes == size * 20 / 100
                  && r.value.dataEnd - r.value.dataStart == r.value.blocks == size * 80 / 100)
  {
    MapBlocksBound(bytes / BLOCK_SIZE * 20 / 100);
    MapBlocksBound(bytes / BLOCK_SIZE * 80 / 100);
  }

  /** inode_create_fs: zero the maps and the inodes, and start both allocators. */
  method CreateFs(vol: Volume, blockStart: nat, bytes: nat)
    returns (r: Option<Layout>, inodeAlloc: Allocator?, dataAlloc: Allocator?)
    modifies vol
    ensures r == LayoutOf(blockStart, bytes) && (r.None? <==> bytes % BLOCK_SIZE != 0)
    ensures r.Some? ==>
              var size := bytes / BLOCK_SIZE;
              && 0 < r.value.inodeMapStart == blockStart + 1 < r.value.inodeMapEnd == r.value.bmapMapStart
              && r.value.bmapMapStart < r.value.bmapMapEnd == r.value.inodeStart
              && r.value.inodeStart <= r.value.inodeEnd == r.value.dataStart <= r.value.dataEnd
              && MapSized(r.value.inodeMapEnd - r.value.inodeMapStart, size * 20 / 100)
              && MapSized(r.value.bmapMapEnd - r.value.bmapMapStart, size * 80 / 100)
              && r.value.inodeEnd - r.value.inodeStart == size * 20 / 100
              && r.value.dataEnd - r.value.dataStart == size * 80 / 100
    ensures r.None? ==>
              inodeAlloc == null && dataAlloc == null && vol.blocks == old(vol.blocks) && vol.inodes == old(vol.inodes)
    ensures r.Some? ==>
              && inodeAlloc != null && dataAlloc != null && fresh(inodeAlloc) && fresh(dataAlloc)
              && fresh(inodeAlloc.window) && fresh(dataAlloc.window) && inodeAlloc.window != dataAlloc.window
              && inodeAlloc.vol == vol && dataAlloc.vol == vol
              && inodeAlloc.mapStart == r.value.inodeMapStart && inodeAlloc.mapEnd == r.value.inodeMapEnd
              && dataAlloc.mapStart == r.value.bmapMapStart && dataAlloc.mapEnd == r.value.bmapMapEnd
              && inodeAlloc.regionStart == r.value.inodeStart && dataAlloc.regionStart == r.value.dataStart
              && inodeAlloc.Valid() && dataAlloc.Valid() && inodeAlloc.live == {} && dataAlloc.live == {}
              && Exact(inodeAlloc.state, {}) && Exact(dataAlloc.state, {})
              && inodeAlloc.initFs && dataAlloc.initFs && inodeAlloc.state == Blank(inodeAlloc.Size())
              && (forall b :: r.value.inodeStart <= b < r.value.inodeEnd ==>
                b in vol.inodes && vol.inodes[b] == ZERO_INODE)
              && InodesSameOutside(old(vol.inodes), vol.inodes, r.value.inodeStart, r.value.inodeEnd)
              && (forall b: nat :: b < r.value.inodeMapStart || b >= r.value.bmapMapEnd ==>
                    BlockAt(vol.blocks, b) == old(BlockAt(vol.blocks, b)))
  {
    hide InodesSameOutside, LayoutOf, MapBits, BitsOf, Safe, Exact, Blank;
    LayoutOrder(blockStart, bytes);
    r := LayoutOf(blockStart, bytes);
    if r.None? {
      return r, null, null;
    }
    var l := r.value;
    ZeroBlocks(vol, l.inodeMapStart, l.inodeMapEnd);
    ZeroBlocks(vol, l.bmapMapStart, l.bmapMapEnd);
    ZeroInodes(vol, l.inodeStart, l.inodeEnd);
    inodeAlloc := new Allocator(vol, l.inodeMapStart, l.inodeMapEnd, l.inodeStart);
    dataAlloc := new Allocator(vol, l.bmapMapStart, l.bmapMapEnd, l.dataStart);
  }
}
