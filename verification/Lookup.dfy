// Looking a name up in one directory (inode.c): the scan that inode_get and inode_create make
// through the maps of a directory.
module Lookups {
  import opened Blocks
  import opened BlockMaps
  import opened FileChain
  import opened Volumes
  import opened DirSpec

  /** No entry of the row has this name. */
  ghost predicate Lacks(row: Slots, inodes: Inodes, name: string) {
    forall b :: b in Compact(row) && b in inodes ==> inodes[b].path != name
  }

  /** strcmp along the slots of one map. */
  method ScanRow(vol: Volume, row: Slots, name: string) returns (found: nat)
    requires forall b :: b in Compact(row) ==> b in vol.inodes
    ensures found != INODE_NULL ==> found in Compact(row) && vol.inodes[found].path == name
    ensures found == INODE_NULL ==> Lacks(row, vol.inodes, name)
  {
    var j := 0;
    while j < BMAP_BLOCKS
      invariant j <= BMAP_BLOCKS
      invariant forall t :: 0 <= t < j && row[t] != INODE_NULL ==>
                  row[t] in vol.inodes && vol.inodes[row[t]].path != name
    {
      if row[j] != INODE_NULL {
        CompactHas(row, row[j]);
        if vol.inodes[row[j]].path == name {
          return row[j];
        }
      }
      j := j + 1;
    }
    forall b | b in Compact(row) ensures vol.inodes[b].path != name {
      CompactHas(row, b);
    }
    found := INODE_NULL;
  }

  lemma RowOfChain(d: Disk, inodes: Inodes, head: nat, maps: seq<Word>, grid: Grid, j: nat)
    requires DirChain(d, head, maps, grid) && Distinct(Listing(grid), inodes) && j < |maps|
    ensures |maps| == |grid| && MapAt(d, maps[j]) == BlockMap(Link(maps, j), grid[j])
    ensures Link(maps, j) == INODE_NULL <==> j + 1 == |maps|
    ensures forall b :: b in Compact(grid[j]) ==> b in Listing(grid) && b in inodes
  {
    forall b | b in Compact(grid[j]) ensures b in Listing(grid) {
      ListingHas(grid, b);
    }
  }

  lemma ChainHead(d: Disk, head: nat, maps: seq<Word>, grid: Grid)
    requires DirChain(d, head, maps, grid)
    ensures |maps| == |grid| && if head == INODE_NULL then maps == [] else maps != [] && head == maps[0]
  {
  }

  /** Follow the chain from its head until an entry has the name: it agrees with the map from
      names to inode blocks. */
  method FindName(vol: Volume, head: nat, name: string, ghost maps: seq<Word>, ghost grid: Grid) returns (found: nat)
    requires DirChain(vol.blocks, head, maps, grid) && Distinct(Listing(grid), vol.inodes)
    ensures found != INODE_NULL ==>
              && name in Names(Listing(grid), vol.inodes) && found == Names(Listing(grid), vol.inodes)[name]
              && found in Listing(grid)
    ensures found == INODE_NULL ==> name !in Names(Listing(grid), vol.inodes)
  {
    hide MapAt, DirChain, Listing, Names;
    ChainHead(vol.blocks, head, maps, grid);
    found := INODE_NULL;
    var next := head;
    ghost var i := 0;
    var more := next != INODE_NULL;
    while more
      invariant i <= |maps| && (more ==> i < |maps| && next == maps[i] && found == INODE_NULL)
      invariant !more && found == INODE_NULL ==> i == |maps|
      invariant found == INODE_NULL ==> forall t :: 0 <= t < i ==> Lacks(grid[t], vol.inodes, name)
      invariant found != INODE_NULL ==>
                  found in Listing(grid) && found in vol.inodes && vol.inodes[found].path == name
      decreases |maps| - i
    {
      var bmap := vol.MapRead(next);
      RowOfChain(vol.blocks, vol.inodes, head, maps, grid, i);
      found := ScanRow(vol, bmap.blocks, name);
      next, i := bmap.next, i + 1;
      more := next != INODE_NULL && found == INODE_NULL;
    }
    if found != INODE_NULL {
      NamesAt(Listing(grid), vol.inodes, found);
    } else if name in Names(Listing(grid), vol.inodes) {
      EntryOf(Listing(grid), vol.inodes, name);
      ListingHas(grid, Names(Listing(grid), vol.inodes)[name]);
    }
  }
}
