// A directory (inode.c): a chain of maps whose slots name inode blocks. Looking a name up,
// creating an entry and removing one refine a finite map from names to inode blocks.
module Directories {
  import opened Wrappers
  import opened Blocks
  import opened BlockMaps
  import opened FileChain
  import opened AllocSpec
  import opened Allocation
  import opened Volumes
  import opened FileData
  import opened Releasing
  import opened DirSpec
  import opened Lookups

  /** `Stranded`: the directory got one more map, but no inode block was left for it. */
  datatype Created = Made(block: nat) | Exists | NoNode | NoMap | Stranded(stray: Word)

  datatype Removed = Gone | Missing | NotEmpty | Busy

  /** How many data and inode blocks can be had, and whether the two maps are exact. */
  datatype Rooms = Rooms(data: nat, nodes: nat, dataExact: bool, nodesExact: bool)

  function NewInode(name: string, isDirectory: bool, self: nat, parent: nat): InodeRecord {
    InodeRecord(name, isDirectory, !isDirectory, self, parent, 0, INODE_NULL, 0, 0, INODE_NULL, INODE_NULL, 0)
  }

  /** From block `start` on, two disks read the same. */
  ghost predicate Alike(d: Disk, e: Disk, start: nat) {
    forall b: nat :: b >= start ==> BlockAt(e, b) == BlockAt(d, b)
  }

  lemma AlikeWritten(d: Disk, e: Disk, start: nat, m: nat, x: Block)
    requires Alike(d, e, start)
    ensures Alike(d[m := x], e[m := x], start)
  {
    var f, g := d[m := x], e[m := x];
    forall b: nat | b >= start ensures BlockAt(g, b) == BlockAt(f, b) {
      assert BlockAt(e, b) == BlockAt(d, b);
    }
  }

  /** From block `start` on only the blocks in `changed` differ. */
  ghost predicate KeptOutside(d: Disk, e: Disk, start: nat, changed: seq<nat>) {
    forall b: nat :: b >= start && b !in changed ==> BlockAt(e, b) == BlockAt(d, b)
  }

  /** A chain of live blocks survives writes to other blocks. */
  lemma ChainKept(d: Disk, e: Disk, start: nat, live: set<nat>, next: nat, r: Rep, changed: seq<nat>)
    requires Chain(d, next, r) && InUse(BlocksOf(r), start, live) && KeptOutside(d, e, start, changed)
    requires forall b :: b in changed ==> b !in BlocksOf(r)
    ensures Chain(e, next, r)
  {
    hide Chain;
    assert forall b :: b in r.maps ==> b in BlocksOf(r);
    ChainFrame(d, e, next, r);
  }

  /** The maps that list the entry `b` and nothing else. */
  ghost function OnlyMaps(maps: seq<Word>, grid: Grid, b: nat): seq<nat>
    requires |maps| == |grid|
  {
    if exists j :: 0 <= j < |grid| && Compact(grid[j]) == [b] then
      var j :| 0 <= j < |grid| && Compact(grid[j]) == [b];
      [maps[j]]
    else []
  }

  lemma FreedBlocks(maps: seq<Word>, grid: Grid, b: nat)
    requires |maps| == |grid|
    ensures forall m :: m in OnlyMaps(maps, grid, b) ==> m in maps
  {
  }

  /** Clearing slot `s` of row `j` empties that row exactly when it listed nothing else. */
  lemma HoleLeft(maps: seq<Word>, grid: Grid, after: Grid, inodes: Inodes, j: nat, s: nat)
    requires Distinct(Listing(grid), inodes) && |maps| == |grid|
    requires j < |grid| && s < BMAP_BLOCKS && grid[j][s] != INODE_NULL && after == PutSlot(grid, j, s, INODE_NULL)
    ensures Compact(after[j]) == [] <==> Compact(grid[j]) == [grid[j][s]]
    ensures OnlyMaps(maps, grid, grid[j][s]) == if Compact(after[j]) == [] then [maps[j]] else []
    ensures Compact(grid[0]) == [grid[j][s]] <==> j == 0 && Compact(after[0]) == []
  {
    hide Compact, Listing;
    RowCleared(grid[j], s);
    CompactHas(grid[j], grid[j][s]);
    assert after[j] == grid[j][s := INODE_NULL];
    forall i | 0 <= i < |grid| && Compact(grid[i]) == [grid[j][s]] ensures i == j {
      OneRowLists(grid, inodes, i, j, grid[j][s]);
    }
  }

  /** `l` with the entry `b` and, in some order, nothing else are the entries `m`. */
  ghost predicate OneMore(l: seq<nat>, b: nat, m: seq<nat>) {
    forall c :: c in m <==> c in l || c == b
  }

  lemma OneMoreInserted(l: seq<nat>, k: nat, b: nat)
    requires k <= |l|
    ensures OneMore(l, b, Inserted(l, k, b))
  {
    forall c ensures c in Inserted(l, k, b) <==> c in l || c == b {
      InsertedHas(l, k, b, c);
    }
  }

  lemma OneMoreDeleted(l: seq<nat>, inodes: Inodes, k: nat)
    requires Distinct(l, inodes) && k < |l|
    ensures OneMore(Deleted(l, k), l[k], l) && l[k] !in Deleted(l, k)
  {
    DistinctDeleted(l, inodes, k);
    forall c ensures c in l <==> c in Deleted(l, k) || c == l[k] {
      DeletedHas(l, k, c);
    }
  }

  /** A new last row lists one entry more. */
  lemma EntriesAppended(grid: Grid, inodes: Inodes, after: Inodes, live: set<nat>, start: nat, self: nat, b: Word,
                        node: InodeRecord)
    requires Entries(Listing(grid), inodes, live, start, self)
    requires forall c :: c in inodes && c != self ==> c in after && after[c] == inodes[c]
    requires b != INODE_NULL && b >= start && b - start !in live && WellMade(node, b, self)
    requires node.path !in Names(Listing(grid), inodes)
    ensures b != self && b !in Listing(grid) && OneMore(Listing(grid), b, Listing(grid + [RowOf(b)]))
    ensures Entries(Listing(grid + [RowOf(b)]), after[b := node], live + {b - start}, start, self)
    ensures Names(Listing(grid + [RowOf(b)]), after[b := node]) == Names(Listing(grid), inodes)[node.path := b]
  {
    hide Entries, Names, Listing, RowOf, Distinct, OneMore, Inserted;
    EntriesDistinct(Listing(grid), inodes, live, start, self);
    ListingAppended(grid, b);
    OneMoreInserted(Listing(grid), |Listing(grid)|, b);
    EntriesRelinked(Listing(grid), inodes, after, live, start, self);
    EntriesDistinct(Listing(grid), after, live, start, self);
    EntriesInserted(Listing(grid), after, live, start, self, |Listing(grid)|, b, node);
    EntriesDistinct(Listing(grid + [RowOf(b)]), after[b := node], live + {b - start}, start, self);
  }

  class Directory {
    const vol: Volume
    const data: Allocator     // maps of directories, and everything of files
    const nodes: Allocator    // inode blocks
    const self: nat           // the inode block of the directory
    ghost var maps: seq<Word>
    ghost var grid: Grid

    ghost predicate Mounted()
      reads data, nodes, vol`blocks, data.window, nodes.window
    {
      && data.vol == vol == nodes.vol && data.Valid() && nodes.Valid() && Placed()
    }

    /** Two allocators on one volume, with their maps and their regions apart. */
    ghost predicate Placed() {
      && data != nodes && data.window != nodes.window && data.vol == vol == nodes.vol
      && data.mapStart < data.mapEnd && nodes.mapStart < nodes.mapEnd
      && (data.mapEnd <= nodes.mapStart || nodes.mapEnd <= data.mapStart)
      && data.mapEnd <= data.regionStart && nodes.mapEnd <= data.regionStart && 0 < nodes.regionStart
      && data.regionStart + BITS * data.Size() <= WORD_LIMIT
      && nodes.regionStart + BITS * nodes.Size() <= data.regionStart
    }

    /** The inode heads a chain of live maps that holds the rows `rows`. */
    ghost predicate Linked(chain: seq<Word>, rows: Grid)
      reads vol, data`live
    {
      && self in vol.inodes && vol.inodes[self].self == self
      && DirChain(vol.blocks, vol.inodes[self].next, chain, rows)
      && forall b :: b in chain ==> data.IsLive(b)
    }

    ghost predicate Listed(rows: Grid)
      reads vol`inodes, nodes`live
    {
      Entries(Listing(rows), vol.inodes, nodes.live, nodes.regionStart, self)
    }

    /** The disk holds this directory, in the maps `chain` with the rows `rows`. */
    ghost predicate Represents(chain: seq<Word>, rows: Grid)
      reads vol, data`live, nodes`live
    {
      Linked(chain, rows) && Listed(rows) && NoEmptyRow(rows)
    }

    ghost predicate Valid()
      reads this, vol, data, nodes, data.window, nodes.window
    {
      Mounted() && Represents(maps, grid)
    }

    /** The map from names to inode blocks. */
    ghost function Contents(): map<string, nat>
      requires Valid()
      reads this, vol, data, nodes, data.window, nodes.window
    {
      Names(Listing(grid), vol.inodes)
    }

    /** The inode that inode_get sets up for a directory without entries. */
    constructor (vol: Volume, data: Allocator, nodes: Allocator, self: nat)
      requires data.vol == vol == nodes.vol && data != nodes && data.window != nodes.window
      requires data.Valid() && nodes.Valid()
      requires data.mapEnd <= nodes.mapStart || nodes.mapEnd <= data.mapStart
      requires data.mapEnd <= data.regionStart && nodes.mapEnd <= data.regionStart && 0 < nodes.regionStart
      requires data.regionStart + BITS * data.Size() <= WORD_LIMIT
      requires nodes.regionStart + BITS * nodes.Size() <= data.regionStart
      requires self in vol.inodes && vol.inodes[self].self == self && vol.inodes[self].next == INODE_NULL
      requires nodes.IsLive(self)
      ensures this.vol == vol && this.data == data && this.nodes == nodes && this.self == self
      ensures Valid() && Contents() == map[]
    {
      this.vol, this.data, this.nodes, this.self := vol, data, nodes, self;
      maps, grid := [], [];
    }

    /** Look a name up: the scan of inode_get, and the first scan of inode_create. */
    method Find(name: string) returns (found: nat)
      requires Valid()
      ensures found != INODE_NULL <==> name in Contents()
      ensures found != INODE_NULL ==> found == Contents()[name] && found in Listing(grid)
    {
      hide Mounted, MapAt, NoEmptyRow, Names, Listing, DirChain, Safe;
      Shape();
      found := FindName(vol, vol.inodes[self].next, name, maps, grid);
    }

    /** A map of one block says exactly what is in use. */
    ghost predicate Counted()
      reads data, nodes
    {
      && (data.mapEnd - data.mapStart == 1 ==> data.IsExact() && data.initFs)
      && (nodes.mapEnd - nodes.mapStart == 1 ==> nodes.IsExact() && nodes.initFs)
    }

    /** What the allocators can still give. */
    ghost function RoomsNow(): Rooms
      reads data, nodes
    {
      Rooms(data.Room(), nodes.Room(), data.IsExact(), nodes.IsExact())
    }

    /** Since `before`, that many data and inode blocks were allocated, and an exact map stayed exact. */
    ghost predicate Took(before: Rooms, dataBlocks: nat, inodeBlocks: nat)
      reads data, nodes
    {
      && data.Room() + dataBlocks == before.data && nodes.Room() + inodeBlocks == before.nodes
      && (before.dataExact ==> data.IsExact()) && (before.nodesExact ==> nodes.IsExact())
    }

    lemma Shape()
      requires Represents(maps, grid)
      ensures self in vol.inodes && |maps| == |grid|
      ensures if vol.inodes[self].next == INODE_NULL then maps == [] else maps != [] && vol.inodes[self].next == maps[0]
      ensures Distinct(Listing(grid), vol.inodes)
    {
    }

    lemma HasShape()
      requires Valid()
      ensures self in vol.inodes && |maps| == |grid| && data.Valid() && nodes.Valid() && Represents(maps, grid)
      ensures vol.inodes[self].next == INODE_NULL <==> maps == []
    {
    }

    lemma ListedFacts()
      requires Valid()
      ensures |maps| == |grid| && forall b :: b in Listing(grid) ==> b in vol.inodes && b != self && nodes.IsLive(b)
      ensures forall n :: n in Contents() ==> Contents()[n] in Listing(grid) && vol.inodes[Contents()[n]].path == n
      ensures Distinct(Listing(grid), vol.inodes)
    {
      forall n | n in Contents() ensures Contents()[n] in Listing(grid) && vol.inodes[Contents()[n]].path == n {
        EntryOf(Listing(grid), vol.inodes, n);
      }
    }

    lemma MapsLive()
      requires Valid()
      ensures forall m :: m in maps ==> data.IsLive(m)
      ensures nodes.IsLive(self) && forall b: nat :: nodes.IsLive(b) ==> b < data.regionStart
    {
    }

    lemma Lists(b: nat, name: string)
      requires Valid() && name in Contents() && Contents()[name] == b
      ensures b in Listing(grid) && b >= nodes.regionStart
    {
      ListedFacts();
    }

    lemma TwoAllocators()
      requires Mounted()
      ensures data != nodes && data.window != nodes.window && data.vol == vol == nodes.vol
    {
    }

    lemma DataIsValid()
      requires Mounted()
      ensures data.Valid()
    {
    }

    /** One map more, with one entry. */
    lemma RepresentsMore(maps0: seq<Word>, grid0: Grid, m: Word, b: Word)
      requires maps == maps0 + [m] && grid == grid0 + [RowOf(b)] && b != INODE_NULL
      requires self in vol.inodes && vol.inodes[self].self == self
      requires DirChain(vol.blocks, vol.inodes[self].next, maps, grid)
      requires (forall c :: c in maps0 ==> data.IsLive(c)) && data.IsLive(m)
      requires NoEmptyRow(grid0) && Listed(grid)
      ensures Represents(maps, grid)
    {
      hide DirChain, RowOf, Listing, Entries;
      ListingAppended([], b);
      forall j {:trigger grid[j]} | 0 <= j < |grid| ensures Compact(grid[j]) != [] {
        assert j < |grid| - 1 ==> grid[j] == grid0[j];
      }
    }

    lemma LinkEnds(h: nat)
      requires Linked(maps, grid) && h < |maps|
      ensures Link(maps, h) == INODE_NULL <==> h + 1 == |maps|
      ensures h > 0 ==> maps[h - 1] != maps[h] && MapAt(vol.blocks, maps[h - 1]) == BlockMap(maps[h], grid[h - 1])
      ensures |maps| == 1 ==> Without(maps, h) == [] && Without(grid, h) == []
    {
      assert h > 0 ==> Link(maps, h - 1) == maps[h];
    }

    /** The maps that stay when map `h` goes. */
    lemma RemainingMaps(h: nat)
      requires Linked(maps, grid) && OthersFilled(h) && h < |maps|
      ensures forall b :: b in Without(maps, h) ==> b in maps && b != maps[h]
      ensures forall b :: b in maps ==> b in Without(maps, h) || b == maps[h]
      ensures NoEmptyRow(Without(grid, h))
    {
      forall i | 0 <= i < |maps| - 1
        ensures Without(maps, h)[i] == maps[if i < h then i else i + 1]
        ensures Without(grid, h)[i] == grid[if i < h then i else i + 1]
      {
        WithoutAt(maps, h, i);
        WithoutAt(grid, h, i);
      }
    }

    lemma NoMapIsNull(i: nat)
      requires Linked(maps, grid)
      ensures i < |maps| ==> maps[i] != INODE_NULL
    {
    }

    lemma HeadIsLive(chain: seq<Word>, rows: Grid)
      requires Represents(chain, rows) && vol.inodes[self].next != INODE_NULL
      ensures data.IsLive(vol.inodes[self].next)
    {
      assert chain[0] in chain;
    }

    lemma DanglingIsBroken()
      requires self in vol.inodes && vol.inodes[self].next != INODE_NULL && !data.IsLive(vol.inodes[self].next)
      ensures forall chain, rows :: !Represents(chain, rows)
    {
      forall chain, rows | Represents(chain, rows) ensures false {
        HeadIsLive(chain, rows);
      }
    }

    lemma RowListed(j: nat)
      requires Represents(maps, grid) && j < |maps|
      ensures MapAt(vol.blocks, maps[j]) == BlockMap(Link(maps, j), grid[j])
      ensures Link(maps, j) == INODE_NULL <==> j + 1 == |maps|
      ensures forall b :: b in Compact(grid[j]) ==> b in Listing(grid) && b in vol.inodes
    {
      forall b | b in Compact(grid[j]) ensures b in Listing(grid) {
        ListingHas(grid, b);
      }
    }

    // ----- one block at a time -----

    /** inode_get_inode_block: a live inode block more, and nothing else that a directory sees. */
    method GetNode() returns (r: Option<Word>)
      requires Mounted()
      modifies nodes, nodes.window, vol`blocks
      ensures Mounted()
      ensures r.Some? ==>
                && r.value >= nodes.regionStart && r.value != INODE_NULL && !old(nodes.IsLive(r.value))
                && nodes.live == old(nodes.live) + {r.value - nodes.regionStart}
      ensures (r.None? <==> old(nodes.Exhausted())) && Took(old(RoomsNow()), 0, if r.None? then 0 else 1)
      ensures r.None? ==> nodes.live == old(nodes.live) && vol.blocks == old(vol.blocks)
      ensures forall b: nat :: b >= data.regionStart ==> BlockAt(vol.blocks, b) == old(BlockAt(vol.blocks, b))
    {
      hide Safe, MapBits, BitsOf;
      var block := nodes.GetBlock();
      r := if block.Some? then Some(block.value) else None;
      MapBitsFrame(old(vol.blocks), vol.blocks, data.mapStart, data.Size());
    }

    /** inode_get_data_block. The block keeps what it held. */
    method GetMap() returns (r: Option<Word>)
      requires Mounted()
      modifies data, data.window, vol`blocks
      ensures Mounted()
      ensures r.Some? ==>
                && r.value >= data.regionStart && r.value != INODE_NULL && !old(data.IsLive(r.value))
                && data.live == old(data.live) + {r.value - data.regionStart}
      ensures (r.None? <==> old(data.Exhausted())) && Took(old(RoomsNow()), if r.None? then 0 else 1, 0)
      ensures r.None? ==> data.live == old(data.live) && vol.blocks == old(vol.blocks)
      ensures forall b: nat :: b >= data.regionStart ==> BlockAt(vol.blocks, b) == old(BlockAt(vol.blocks, b))
    {
      hide Safe, MapBits, BitsOf;
      var block := data.GetBlock();
      r := if block.Some? then Some(block.value) else None;
      MapBitsFrame(old(vol.blocks), vol.blocks, nodes.mapStart, nodes.Size());
    }

    method WriteMap(b: nat, m: BlockMap)
      requires Mounted() && b >= data.regionStart
      modifies vol`blocks
      ensures Mounted() && vol.blocks == old(vol.blocks)[b := Encode(m)]
    {
      MapBitsFrame(vol.blocks, vol.blocks[b := Encode(m)], data.mapStart, data.Size());
      MapBitsFrame(vol.blocks, vol.blocks[b := Encode(m)], nodes.mapStart, nodes.Size());
      vol.BlockWrite(b, Encode(m));
    }

    // ----- inode_create -----

    /** The first slot that holds `v`, or the last map if none does: the search for a free slot
        in inode_create and for the entry in inode_free. */
    method FindSlot(v: nat) returns (current: nat, bmap: BlockMap, s: nat, ghost j: nat)
      requires Represents(maps, grid) && maps != []
      ensures s <= BMAP_BLOCKS && j < |maps| && current == maps[j] && bmap == BlockMap(Link(maps, j), grid[j])
      ensures s < BMAP_BLOCKS ==> grid[j][s] == v && v !in grid[j][..s] && NoSlotHolds(grid[..j], v)
      ensures s == BMAP_BLOCKS ==> j == |maps| - 1
      ensures s == BMAP_BLOCKS <==> NoSlotHolds(grid, v)
    {
      hide MapAt, NoEmptyRow, Linked, Listed, Listing;
      Shape();
      j, s := 0, 0;
      current := vol.inodes[self].next;
      bmap := vol.MapRead(current);
      RowListed(0);
      while bmap.blocks[s] != v
        invariant j < |maps| && current == maps[j] && bmap == BlockMap(Link(maps, j), grid[j])
        invariant s < BMAP_BLOCKS && v !in grid[j][..s] && NoSlotHolds(grid[..j], v)
        decreases |maps| - j, BMAP_BLOCKS - s
      {
        assert grid[j][..s + 1] == grid[j][..s] + [grid[j][s]];
        s := s + 1;
        if s == BMAP_BLOCKS {
          assert grid[j][..s] == grid[j];
          assert grid[..j + 1] == grid[..j] + [grid[j]];
          RowListed(j);
          if bmap.next == INODE_NULL {
            assert grid[..j + 1] == grid;
            return;
          }
          current, j, s := bmap.next, j + 1, 0;
          bmap := vol.MapRead(current);
          RowListed(j);
        }
      }
    }

    /** Put a new inode into a free slot. */
    method UseSlot(current: nat, bmap: BlockMap, s: nat, name: string, isDirectory: bool, ghost j: nat)
      returns (r: Created)
      requires Valid() && name !in Contents()
      requires j < |maps| && current == maps[j] && bmap == BlockMap(Link(maps, j), grid[j])
      requires s < BMAP_BLOCKS && grid[j][s] == INODE_NULL
      modifies this`grid, vol, nodes, nodes.window
      ensures Valid()
      ensures r == NoNode || r.Made?
      ensures (r == NoNode <==> old(nodes.Exhausted())) && Took(old(RoomsNow()), 0, if r.Made? then 1 else 0)
      ensures r == NoNode ==> grid == old(grid) && vol.inodes == old(vol.inodes) && vol.blocks == old(vol.blocks)
      ensures r == NoNode ==> nodes.live == old(nodes.live)
      ensures r.Made? ==>
                && r.block != INODE_NULL && !old(nodes.IsLive(r.block))
                && nodes.live == old(nodes.live) + {r.block - nodes.regionStart}
                && Contents() == old(Contents())[name := r.block] && OneMore(old(Listing(grid)), r.block, Listing(grid))
                && vol.inodes == old(vol.inodes)[r.block := NewInode(name, isDirectory, r.block, self)]
                && r.block < WORD_LIMIT && grid == PutSlot(old(grid), j, s, r.block)
      ensures KeptBlocks(old(vol.blocks), vol.blocks, data.regionStart, old(data.live), maps)
    {
      hide Allocator.Room, Allocator.IsExact, Mounted, MapAt, Listing, Names, Entries, Encode, Rank, Compact,
        DirChain;
      var block := GetNode();
      DirChainFrame(old(vol.blocks), vol.blocks, vol.inodes[self].next, maps, grid);
      if block.None? {
        return NoNode;
      }
      var b := block.value;
      ListingFilled(grid, j, s, b);
      OneMoreInserted(Listing(grid), Rank(grid, j, s), b);
      var node := NewInode(name, isDirectory, b, self);
      EntriesInserted(Listing(grid), vol.inodes, old(nodes.live), nodes.regionStart, self, Rank(grid, j, s), b, node);
      RowFilled(grid[j], s, b);
      RowWritten(vol.blocks, vol.inodes[self].next, maps, grid, j, grid[j][s := b]);
      assert maps[j] in maps;
      WriteMap(current, bmap.(blocks := bmap.blocks[s := b]));
      grid := PutSlot(grid, j, s, b);
      vol.InodeWrite(b, node);
      r := Made(b);
    }

    /** The inode records once the chain starts, or goes on, with map `b`. */
    ghost function InodesLinked(inodes: Inodes, b: Word): Inodes
      reads this`maps
      requires self in inodes
    {
      if maps == [] then inodes[self := inodes[self].(next := b)] else inodes
    }

    ghost function DiskLinked(d: Disk, b: Word): Disk
      reads this`maps, this`grid
      requires |maps| == |grid|
    {
      if maps == [] then d else d[maps[|maps| - 1] := Encode(BlockMap(b, grid[|maps| - 1]))]
    }

    /** On the data region the disk reads like `d`. */
    ghost predicate DataLike(d: Disk)
      reads vol`blocks
    {
      Alike(d, vol.blocks, data.regionStart)
    }

    /** A valid directory of disk `d` and inodes `inodes` has the new map `m` linked at its
        end; the map holds whatever the block held before. */
    ghost predicate Attached(d: Disk, inodes: Inodes, m: Word)
      reads this, vol, data`live, nodes`live
    {
      && self in inodes && inodes[self].self == self && |maps| == |grid|
      && DirChain(d, inodes[self].next, maps, grid) && NoEmptyRow(grid)
      && Entries(Listing(grid), inodes, nodes.live, nodes.regionStart, self)
      && (forall b :: b in maps ==> data.IsLive(b))
      && m != INODE_NULL && m !in maps && data.IsLive(m)
      && vol.inodes == InodesLinked(inodes, m) && DataLike(DiskLinked(d, m))
    }

    /** Allocate a map and link it behind the last one, or from the inode. */
    method AttachMap(current: nat, bmap: BlockMap) returns (r: Option<Word>)
      requires Valid()
      requires if maps == [] then current == INODE_NULL
               else current == maps[|maps| - 1] && bmap == BlockMap(INODE_NULL, grid[|maps| - 1])
      modifies vol, data, data.window
      ensures Mounted() && |maps| == |grid|
      ensures (r.None? <==> old(data.Exhausted())) && Took(old(RoomsNow()), if r.None? then 0 else 1, 0)
      ensures r.None? ==> vol.blocks == old(vol.blocks) && vol.inodes == old(vol.inodes) && data.live == old(data.live)
      ensures r.Some? ==>
                && !old(data.IsLive(r.value)) && data.live == old(data.live) + {r.value - data.regionStart}
                && Attached(old(vol.blocks), old(vol.inodes), r.value)
    {
      hide Allocator.Room, Allocator.IsExact, Mounted, Entries, NoEmptyRow, Encode, MapAt;
      Shape();
      TwoAllocators();
      assert maps != [] ==> maps[0] in maps && maps[|maps| - 1] in maps;
      r := GetMap();
      if r.None? {
        return;
      }
      if current != INODE_NULL {
        AlikeWritten(old(vol.blocks), vol.blocks, data.regionStart, current, Encode(bmap.(next := r.value)));
        WriteMap(current, bmap.(next := r.value));
      } else {
        vol.InodeWrite(self, vol.inodes[self].(next := r.value));
      }
    }

    /** Once the attached map is written, the chain goes on with a row of one entry. */
    lemma ChainGrown(d: Disk, m: Word, b: Word, next: nat)
      requires DirChain(d, next, maps, grid) && m != INODE_NULL && m !in maps && b != INODE_NULL
      requires DataLike(DiskLinked(d, m)[m := Encode(BlockMap(INODE_NULL, RowOf(b)))])
      requires m >= data.regionStart && forall c :: c in maps ==> c >= data.regionStart
      ensures DirChain(vol.blocks, if maps == [] then m else next, maps + [m], grid + [RowOf(b)])
    {
      hide MapAt, Encode, RowOf;
      var e := DiskLinked(d, m)[m := Encode(BlockMap(INODE_NULL, RowOf(b)))];
      if maps == [] {
        FirstMapWritten(d, m, RowOf(b));
        assert maps + [m] == [m] && grid + [RowOf(b)] == [RowOf(b)];
      } else {
        MapAppended(d, next, maps, grid, m, RowOf(b));
      }
      DirChainFrame(e, vol.blocks, if maps == [] then m else next, maps + [m], grid + [RowOf(b)]);
    }

    /** Allocate an inode for the attached map and write both. Without an inode the map stays
        linked, unwritten. */
    method NewEntry(m: Word, name: string, isDirectory: bool, ghost d: Disk, ghost inodes: Inodes) returns (r: Created)
      requires Mounted() && Attached(d, inodes, m) && name !in Names(Listing(grid), inodes)
      modifies this`maps, this`grid, vol, nodes, nodes.window
      ensures Mounted() && (r == Stranded(m) || r.Made?)
      ensures (r.Stranded? <==> old(nodes.Exhausted())) && Took(old(RoomsNow()), 0, if r.Made? then 1 else 0)
      ensures r.Stranded? ==>
                Attached(d, inodes, m) && nodes.live == old(nodes.live) && maps == old(maps) && grid == old(grid)
      ensures r.Made? ==>
                && Valid() && maps == old(maps) + [m]
                && r.block < WORD_LIMIT && grid == old(grid) + [RowOf(r.block)]
                && r.block != INODE_NULL && !old(nodes.IsLive(r.block))
                && nodes.live == old(nodes.live) + {r.block - nodes.regionStart}
                && Contents() == old(Names(Listing(grid), inodes))[name := r.block]
                && OneMore(old(Listing(grid)), r.block, Listing(grid))
                && vol.inodes == old(InodesLinked(inodes, m))[r.block := NewInode(name, isDirectory, r.block, self)]
      ensures forall b: nat :: b >= data.regionStart && b != m ==> BlockAt(vol.blocks, b) == old(BlockAt(vol.blocks, b))
    {
      hide Allocator.Room, Allocator.IsExact, Mounted, MapAt, Listing, Names, Entries, Encode, Compact, RowOf,
        DirChain, DiskLinked, Represents, NoEmptyRow, Distinct, OneMore;
      TwoAllocators();
      var block := GetNode();
      if block.None? {
        return Stranded(m);
      }
      var b := block.value;
      AlikeWritten(DiskLinked(d, m), vol.blocks, data.regionStart, m, Encode(BlockMap(INODE_NULL, RowOf(b))));
      WriteMap(m, BlockMap(INODE_NULL, RowOf(b)));
      ChainGrown(d, m, b, inodes[self].next);
      var node := NewInode(name, isDirectory, b, self);
      EntriesAppended(grid, inodes, vol.inodes, old(nodes.live), nodes.regionStart, self, b, node);
      maps, grid := maps + [m], grid + [RowOf(b)];
      vol.InodeWrite(b, node);
      RepresentsMore(old(maps), old(grid), m, b);
      r := Made(b);
    }

    /** No slot is free: add a map, then an inode. */
    method GrowDirectory(current: nat, bmap: BlockMap, name: string, isDirectory: bool) returns (r: Created)
      requires Valid() && name !in Contents()
      requires if maps == [] then current == INODE_NULL
               else current == maps[|maps| - 1] && bmap == BlockMap(INODE_NULL, grid[|maps| - 1])
      modifies this`maps, this`grid, vol, data, data.window, nodes, nodes.window
      ensures Mounted() && self in old(vol.inodes)
      ensures r == NoMap || r.Stranded? || r.Made?
      ensures r == NoMap <==> old(data.Exhausted())
      ensures r.Stranded? <==> !old(data.Exhausted()) && old(nodes.Exhausted())
      ensures r == NoMap ==>
                && Valid() && grid == old(grid) && maps == old(maps) && vol.inodes == old(vol.inodes)
                && data.live == old(data.live) && vol.blocks == old(vol.blocks)
      ensures !r.Made? ==> nodes.live == old(nodes.live)
      ensures Took(old(RoomsNow()), if r == NoMap then 0 else 1, if r.Made? then 1 else 0)
      ensures r.Made? ==> |maps| == |old(maps)| + 1 && RowAdded(old(grid), grid, r.block)
      ensures r.Made? ==>
                && Valid() && r.block != INODE_NULL && !old(nodes.IsLive(r.block))
                && nodes.live == old(nodes.live) + {r.block - nodes.regionStart}
                && Contents() == old(Contents())[name := r.block] && OneMore(old(Listing(grid)), r.block, Listing(grid))
                && r.block in vol.inodes && vol.inodes[r.block] == NewInode(name, isDirectory, r.block, self)
      ensures forall b :: b in old(vol.inodes) && b != self && (r.Made? ==> b != r.block) ==>
                b in vol.inodes && vol.inodes[b] == old(vol.inodes[b])
      ensures r.Stranded? ==>
                maps == old(maps) && grid == old(grid) && Attached(old(vol.blocks), old(vol.inodes), r.stray)
      ensures old(data.live) <= data.live && OursOrFresh(maps, data.regionStart, old(data.live), old(maps))
      ensures r.Made? ==> LiveFor(data.regionStart, old(data.live), data.live, maps) && old(maps) <= maps
      ensures KeptBlocks(old(vol.blocks), vol.blocks, data.regionStart, old(data.live), old(maps))
    {
      hide Allocator.Room, Allocator.IsExact, Mounted, MapAt, Listing, Names, Entries, Encode, DirChain, NoEmptyRow;
      Shape();
      TwoAllocators();
      var added := AttachMap(current, bmap);
      if added.None? {
        return NoMap;
      }
      r := NewEntry(added.value, name, isDirectory, old(vol.blocks), old(vol.inodes));
      if r.Made? {
        AddedRow(old(grid), r.block);
      }
    }

    /** What inode_create leaves when it fails after linking a map that was never written: an
        empty map at the end, which no valid directory has. */
    lemma StrandedIsBroken(d: Disk, inodes: Inodes, stray: Word)
      requires Attached(d, inodes, stray) && BlockAt(d, stray) == Zeros(BLOCK_SIZE)
      ensures forall chain, rows :: !Represents(chain, rows)
    {
      hide Entries, Decode, Encode, Listing;
      var links := maps + [stray];
      ZerosDecode();
      forall i | 0 <= i < |maps| ensures MapAt(vol.blocks, links[i]).next == links[i + 1] {
        assert links[i] == maps[i] && maps[i] in maps;
        assert MapAt(d, maps[i]) == BlockMap(Link(maps, i), grid[i]);
        MapAtWritten(d, maps[|maps| - 1], BlockMap(stray, grid[|maps| - 1]), maps[i]);
      }
      assert MapAt(vol.blocks, stray) == EMPTY_MAP;
      forall chain, rows | Represents(chain, rows) ensures false {
        EmptyMapShows(vol.blocks, vol.inodes[self].next, links, chain, rows);
      }
    }

    /** inode_create, once the directory is found: add one name, or report that it exists. */
    method Create(name: string, isDirectory: bool) returns (r: Created)
      requires Valid()
      modifies this`maps, this`grid, vol, data, data.window, nodes, nodes.window
      ensures Mounted()
      ensures r == Exists <==> name in old(Contents())
      ensures r == NoNode <==> name !in old(Contents()) && !old(NoSlotHolds(grid, INODE_NULL)) && old(nodes.Exhausted())
      ensures r == NoMap <==> name !in old(Contents()) && old(NoSlotHolds(grid, INODE_NULL)) && old(data.Exhausted())
      ensures r.Stranded? <==>
                name !in old(Contents()) && old(NoSlotHolds(grid, INODE_NULL)) && !old(data.Exhausted())
                  && old(nodes.Exhausted())
      ensures r == Exists || r == NoNode || r == NoMap ==>
                && Valid() && Contents() == old(Contents()) && maps == old(maps) && grid == old(grid)
                && vol.inodes == old(vol.inodes) && vol.blocks == old(vol.blocks)
                && data.live == old(data.live) && nodes.live == old(nodes.live)
      ensures r.Made? ==>
                && Valid() && Contents() == old(Contents())[name := r.block]
                && OneMore(old(Listing(grid)), r.block, Listing(grid))
                && r.block != INODE_NULL && !old(nodes.IsLive(r.block))
                && nodes.live == old(nodes.live) + {r.block - nodes.regionStart}
                && r.block in vol.inodes && vol.inodes[r.block] == NewInode(name, isDirectory, r.block, self)
      ensures r.Made? ==>
                if old(NoSlotHolds(grid, INODE_NULL)) then RowAdded(old(grid), grid, r.block)
                else FirstFilled(old(grid), grid, r.block)
      ensures r.Made? ==>
                var node := vol.inodes[r.block];
                && node.path == name && node.isDirectory == isDirectory && node.isFile == !isDirectory
                && node.self == r.block && node.parent == self && node.refcount == 0
                && node.next == INODE_NULL && node.size == 0 && node.pos == 0 && node.current == INODE_NULL
      ensures r.Made? ==> |maps| == |old(maps)| + if old(NoSlotHolds(grid, INODE_NULL)) then 1 else 0
      ensures Took(old(RoomsNow()), if r.Stranded? || |maps| > |old(maps)| then 1 else 0, if r.Made? then 1 else 0)
      ensures forall b :: b in old(vol.inodes) && b != self && (r.Made? ==> b != r.block) ==>
                b in vol.inodes && vol.inodes[b] == old(vol.inodes[b])
      ensures r.Stranded? ==>
                && nodes.live == old(nodes.live)
                && maps == old(maps) && grid == old(grid) && Attached(old(vol.blocks), old(vol.inodes), r.stray)
      ensures r.Stranded? && old(BlockAt(vol.blocks, r.stray)) == Zeros(BLOCK_SIZE) ==>
                forall chain, rows :: !Represents(chain, rows)
      ensures old(data.live) <= data.live && OursOrFresh(maps, data.regionStart, old(data.live), old(maps))
      ensures r.Made? ==> LiveFor(data.regionStart, old(data.live), data.live, maps) && old(maps) <= maps
      ensures KeptBlocks(old(vol.blocks), vol.blocks, data.regionStart, old(data.live), old(maps))
    {
      hide Allocator.Room, Allocator.IsExact, Mounted, MapAt, Listing, Names, Entries, Encode, Compact, RowOf,
        DirChain, NoEmptyRow, Attached, Represents;
      Shape();
      TwoAllocators();
      var found := Find(name);
      if found != INODE_NULL {
        return Exists;
      }
      var current, bmap, s := INODE_NULL, EMPTY_MAP, BMAP_BLOCKS;
      ghost var j := 0;
      if vol.inodes[self].next != INODE_NULL {
        current, bmap, s, j := FindSlot(INODE_NULL);
      }
      if s < BMAP_BLOCKS {
        r := UseSlot(current, bmap, s, name, isDirectory, j);
        if r.Made? {
          FilledFirst(old(grid), j, s, r.block);
        }
      } else {
        r := GrowDirectory(current, bmap, name, isDirectory);
        if r.Stranded? && old(BlockAt(vol.blocks, r.stray)) == Zeros(BLOCK_SIZE) {
          StrandedIsBroken(old(vol.blocks), old(vol.inodes), r.stray);
        }
      }
    }

    // ----- inode_free -----

    method FreeNode(b: nat)
      requires Mounted() && nodes.IsLive(b)
      modifies nodes, nodes.window
      ensures Mounted() && nodes.live == old(nodes.live) - {b - nodes.regionStart}
      ensures b - nodes.regionStart < BITS * |old(nodes.state).store|
      ensures nodes.state == Free(old(nodes.state), b - nodes.regionStart)
      ensures nodes.Size() == 1 && old(Exact(nodes.state, nodes.live)) ==> Exact(nodes.state, nodes.live)
    {
      hide Exact, Free;
      FreeIsInRange(nodes, b);
      if Exact(nodes.state, nodes.live) {
        FreeIsExactIff(nodes.state, nodes.live, b - nodes.regionStart);
      }
      var warned := nodes.FreeBlock(b);
    }

    method FreeMap(b: nat)
      requires Mounted() && data.IsLive(b)
      modifies data, data.window
      ensures Mounted() && Freed(data, old(data.state), old(data.live), [b])
      ensures data.live == LiveWithout(old(data.live), data.regionStart, [b])
    {
      NothingFreed(data);
      FreeOne(data, b, data.state, data.live, []);
      assert [] + [b] == [b];
    }

    /** Clear the slot of an entry and give its inode block back. A map may end up empty. */
    method ClearSlot(b: nat) returns (ghost j: nat, ghost s: nat)
      requires Valid() && b in Listing(grid)
      modifies this`grid, vol`blocks, nodes, nodes.window
      ensures Mounted() && Linked(maps, grid) && Listed(grid) && OthersFilled(j)
      ensures j < |old(grid)| && s < BMAP_BLOCKS && old(grid)[j][s] == b && grid == PutSlot(old(grid), j, s, INODE_NULL)
      ensures Names(Listing(grid), vol.inodes) == old(Contents() - {vol.inodes[b].path})
      ensures OneMore(Listing(grid), b, old(Listing(grid))) && b !in Listing(grid)
      ensures TakenOff(old(Listing(grid)), b, Listing(grid))
      ensures nodes.live == old(nodes.live) - {b - nodes.regionStart}
      ensures b - nodes.regionStart < BITS * |old(nodes.state).store|
      ensures nodes.state == Free(old(nodes.state), b - nodes.regionStart)
      ensures nodes.Size() == 1 && old(Exact(nodes.state, nodes.live)) ==> Exact(nodes.state, nodes.live)
      ensures KeptOutside(old(vol.blocks), vol.blocks, data.regionStart, maps)
    {
      hide Mounted, MapAt, Listing, Names, Encode, Compact, DirChain, Rank;
      Shape();
      TwoAllocators();
      ListedIsHeld(grid, b);
      EmptyListing(grid);
      ListingNotNull(grid, b);
      var current, bmap, t;
      current, bmap, t, j := FindSlot(b);
      s := t;
      FreeNode(b);
      ListingCleared(grid, j, s);
      OneMoreDeleted(Listing(grid), vol.inodes, Rank(grid, j, s));
      EntriesDeleted(Listing(grid), vol.inodes, old(nodes.live), nodes.regionStart, self, Rank(grid, j, s));
      RowWritten(vol.blocks, vol.inodes[self].next, maps, grid, j, grid[j][s := INODE_NULL]);
      assert maps[j] in maps;
      WriteMap(current, bmap.(blocks := bmap.blocks[t := INODE_NULL]));
      grid := PutSlot(grid, j, s, INODE_NULL);
    }

    /** The loop over the chain of a plain file; `since` is the disk before its slot was cleared. */
    method FreeFile(next: nat, ghost r: Rep, ghost since: Disk)
      requires Mounted() && Linked(maps, grid) && KeptOutside(since, vol.blocks, data.regionStart, maps)
      requires if next == INODE_NULL then r == Rep([], [])
               else Chain(since, next, r) && InUse(BlocksOf(r), data.regionStart, data.live)
      requires forall b :: b in maps ==> b !in BlocksOf(r)
      modifies data, data.window
      ensures Mounted() && Linked(maps, grid) && Freed(data, old(data.state), old(data.live), Released(r))
    {
      hide Chain, DirChain, Released, FreeBlocks, MapBits, Safe, BitsOf;
      if next != INODE_NULL {
        ChainKept(since, vol.blocks, data.regionStart, data.live, next, r, maps);
      }
      var freed := FreeFileBlocks(vol, data, next, r);
    }

    method RowIsEmpty(row: Slots) returns (empty: bool)
      ensures empty <==> Compact(row) == []
    {
      empty := true;
      var i := 0;
      while i < BMAP_BLOCKS
        invariant i <= BMAP_BLOCKS && (empty <==> forall t :: 0 <= t < i ==> row[t] == INODE_NULL)
      {
        if row[i] != INODE_NULL {
          empty := false;
        }
        i := i + 1;
      }
      if empty {
        CompactZeros(row);
      } else {
        ghost var t :| 0 <= t < BMAP_BLOCKS && row[t] != INODE_NULL;
        CompactHas(row, row[t]);
      }
    }

    /** Every row but row `h` has an entry. */
    ghost predicate OthersFilled(h: nat)
      reads this`grid
    {
      forall j {:trigger grid[j]} :: 0 <= j < |grid| && j != h ==> Compact(grid[j]) != []
    }

    /** The first map of several lost its last entry. */
    ghost predicate HeadHole(h: nat)
      reads this`maps, this`grid
    {
      h == 0 && |maps| > 1 && |maps| == |grid| && Compact(grid[0]) == []
    }

    /** What is left when row `h` has lost its last entry: the chain without that map, except
        that the inode goes on pointing to the first of several maps. */
    method DropMap(prev: nat, current: nat, bmap: BlockMap, ghost h: nat)
      requires Mounted() && Linked(maps, grid) && OthersFilled(h)
      requires h < |maps| && Compact(grid[h]) == []
      requires current == maps[h] && bmap == BlockMap(Link(maps, h), grid[h])
      requires prev == maps[if h == 0 then 0 else h - 1]
      modifies this`maps, this`grid, vol, data, data.window
      ensures Mounted() && self in vol.inodes
      ensures Freed(data, old(data.state), old(data.live), [old(maps)[h]])
      ensures vol.inodes == old(vol.inodes)[self := old(vol.inodes)[self].(next := vol.inodes[self].next)]
      ensures old(HeadHole(h)) ==>
                vol.inodes[self].next == current && vol.inodes == old(vol.inodes) && vol.blocks == old(vol.blocks)
      ensures !old(HeadHole(h)) ==> Linked(maps, grid) && NoEmptyRow(grid) && Listing(grid) == old(Listing(grid))
      ensures !old(HeadHole(h)) ==> maps == old(Without(maps, h)) && grid == old(Without(grid, h))
      ensures forall m :: m in maps ==> m in old(maps)
      ensures !old(HeadHole(h)) ==>
                forall m :: m in old(maps) ==> m in maps || (m == old(maps)[h] && old(Compact(grid[h])) == [])
      ensures KeptOutside(old(vol.blocks), vol.blocks, data.regionStart, old(maps))
    {
      hide Mounted, MapAt, Encode, Compact, Listing, Link, Freed;
      LinkEnds(h);
      ListingWithout(grid, h);
      var parent := vol.inodes[self];
      assert maps[h] in maps;
      if prev == current && bmap.next != INODE_NULL {
        FreeMap(current);                             // parent.next == bmap.next; has no effect
      } else if prev == current {
        parent := parent.(next := INODE_NULL);
        FreeMap(current);
        maps, grid := [], [];
      } else {
        ghost var d, next := vol.blocks, parent.next;
        assert maps[h - 1] in maps;
        MapUnlinked(d, next, maps, grid, h);
        RemainingMaps(h);
        var pnode := vol.MapRead(prev);
        WriteMap(prev, pnode.(next := bmap.next));
        FreeMap(current);
        maps, grid := Without(maps, h), Without(grid, h);
      }
      vol.InodeWrite(self, parent);
    }

    /** The first map of the chain without entries, and the map before it. */
    method FindEmptyMap() returns (empty: bool, prev: nat, current: nat, bmap: BlockMap, ghost i: nat)
      requires Linked(maps, grid) && maps != []
      ensures empty ==>
                && i < |maps| && Compact(grid[i]) == [] && current == maps[i]
                && prev == maps[if i == 0 then 0 else i - 1]
                && bmap == BlockMap(Link(maps, i), grid[i])
      ensures !empty ==> NoEmptyRow(grid)
    {
      hide MapAt, Compact;
      empty, prev, current, bmap, i := false, vol.inodes[self].next, vol.inodes[self].next, EMPTY_MAP, 0;
      assert maps[0] != INODE_NULL;
      while current != INODE_NULL
        invariant i <= |maps| && current == (if i < |maps| then maps[i] else INODE_NULL)
        invariant prev == maps[if i == 0 then 0 else i - 1]
        invariant forall j {:trigger grid[j]} :: 0 <= j < i ==> Compact(grid[j]) != []
        decreases |maps| - i
      {
        bmap := vol.MapRead(current);
        empty := RowIsEmpty(bmap.blocks);
        if empty {
          return;
        }
        LinkEnds(i);
        prev, current, i := current, bmap.next, i + 1;
      }
      NoMapIsNull(i);
    }

    /** The end of inode_free: walk the chain of the parent and drop the first map that has no
        entry; only row `h` can be that one. */
    method FixUp(ghost h: nat)
      requires Mounted() && Linked(maps, grid) && OthersFilled(h) && h < |maps|
      modifies this`maps, this`grid, vol, data, data.window
      ensures Mounted() && self in vol.inodes
      ensures Freed(data, old(data.state), old(data.live), if old(Compact(grid[h])) == [] then [old(maps)[h]] else [])
      ensures vol.inodes == old(vol.inodes)[self := old(vol.inodes)[self].(next := vol.inodes[self].next)]
      ensures old(HeadHole(h)) ==>
                vol.inodes[self].next == old(maps)[0] && vol.inodes == old(vol.inodes) && vol.blocks == old(vol.blocks)
      ensures !old(HeadHole(h)) ==> Linked(maps, grid) && NoEmptyRow(grid) && Listing(grid) == old(Listing(grid))
      ensures !old(HeadHole(h)) ==>
                if old(Compact(grid[h])) == [] then maps == old(Without(maps, h)) && grid == old(Without(grid, h))
                else maps == old(maps) && grid == old(grid)
      ensures forall m :: m in maps ==> m in old(maps)
      ensures !old(HeadHole(h)) ==>
                forall m :: m in old(maps) ==> m in maps || (m == old(maps)[h] && old(Compact(grid[h])) == [])
      ensures KeptOutside(old(vol.blocks), vol.blocks, data.regionStart, old(maps))
    {
      hide Mounted, MapAt, Listing, Compact, Freed, Allocator.Valid;
      var empty, prev, current, bmap, i := FindEmptyMap();
      if empty {
        DropMap(prev, current, bmap, h);
      } else {
        DataIsValid();
        NothingFreed(data);
      }
    }

    /** The blocks of the file, if it is one, and the map left empty, if any. */
    method GiveBackData(inode: InodeRecord, ghost r: Rep, ghost since: Disk, ghost h: nat)
      requires Mounted() && Linked(maps, grid) && OthersFilled(h) && h < |maps|
      requires KeptOutside(since, vol.blocks, data.regionStart, maps)
      requires inode.isFile ==>
                 && (if inode.next == INODE_NULL then r == Rep([], [])
                     else Chain(since, inode.next, r) && InUse(BlocksOf(r), data.regionStart, data.live))
                 && forall b :: b in maps ==> b !in BlocksOf(r)
      modifies this`maps, this`grid, vol, data, data.window
      ensures Mounted() && self in vol.inodes
      ensures var emptied := if old(Compact(grid[h])) == [] then [old(maps)[h]] else [];
              Freed(data, old(data.state), old(data.live), (if inode.isFile then Released(r) else []) + emptied)
      ensures vol.inodes == old(vol.inodes)[self := old(vol.inodes)[self].(next := vol.inodes[self].next)]
      ensures old(HeadHole(h)) ==>
                vol.inodes[self].next == old(maps)[0] && vol.inodes == old(vol.inodes) && vol.blocks == old(vol.blocks)
      ensures old(HeadHole(h)) ==> !data.IsLive(old(maps)[0])
      ensures !old(HeadHole(h)) ==> Linked(maps, grid) && NoEmptyRow(grid) && Listing(grid) == old(Listing(grid))
      ensures !old(HeadHole(h)) ==>
                if old(Compact(grid[h])) == [] then maps == old(Without(maps, h)) && grid == old(Without(grid, h))
                else maps == old(maps) && grid == old(grid)
      ensures forall m :: m in maps ==> m in old(maps)
      ensures !old(HeadHole(h)) ==>
                forall m :: m in old(maps) ==> m in maps || (m == old(maps)[h] && old(Compact(grid[h])) == [])
      ensures KeptOutside(old(vol.blocks), vol.blocks, data.regionStart, old(maps))
    {
      hide Mounted, MapAt, Listing, Compact, Chain, Freed, FreeBlocks, Released, OthersFilled, Allocator.Valid;
      if inode.isFile {
        FreeFile(inode.next, r, since);
      } else {
        DataIsValid();
        NothingFreed(data);
      }
      ghost var released := if inode.isFile then Released(r) else [];
      FreedState(data, old(data.state), old(data.live), released);
      FixUp(h);
      ghost var emptied := if old(Compact(grid[h])) == [] then [old(maps)[h]] else [];
      FreedAgain(data, old(data.state), old(data.live), released, emptied);
      NoneIsLive(data, old(data.state), old(data.live), released + emptied);
      assert old(HeadHole(h)) ==> old(maps)[0] in released + emptied;
    }

    ghost function Entry(name: string): InodeRecord
      requires Valid() && name in Contents()
      reads this, vol, data, nodes, data.window, nodes.window
    {
      EntryOf(Listing(grid), vol.inodes, name);
      vol.inodes[Contents()[name]]
    }

    /** inode_free accepts the name: not a directory with entries, not a file with hard links. */
    ghost predicate Removable(name: string)
      requires Valid()
      reads this, vol, data, nodes, data.window, nodes.window
    {
      && name in Contents()
      && !(Entry(name).isDirectory && Entry(name).next != INODE_NULL)
      && !(Entry(name).isFile && Entry(name).refcount > 0)
    }

    /** The name is the only entry of the first map, and other maps follow. */
    ghost predicate EmptiesHead(name: string)
      requires Valid()
      reads this, vol, data, nodes, data.window, nodes.window
    {
      name in Contents() && AloneInFirst(maps, grid, Contents()[name])
    }

    /** The data blocks that removing the name gives back: those of a file, and the map that
        lists nothing else. */
    ghost function GivenBack(name: string, r: Rep): seq<nat>
      requires Valid() && name in Contents()
      reads this, vol, data, nodes, data.window, nodes.window
    {
      (if Entry(name).isFile then Released(r) else []) + OnlyMaps(maps, grid, Contents()[name])
    }

    /** inode_free on a file or directory found by name: clear its slot, give back its inode
        block and, for a file, its blocks, and drop the map it leaves empty. `r` is the chain
        of the file. */
    method Remove(name: string, ghost r: Rep) returns (result: Removed)
      requires Valid()
      requires name in Contents() && Entry(name).isFile ==>
                 OnDisk(vol, data, Entry(name).next, r) && forall b :: b in maps ==> b !in BlocksOf(r)
      modifies this`maps, this`grid, vol, data, data.window, nodes, nodes.window
      ensures result == Missing <==> name !in old(Contents())
      ensures result == NotEmpty ==> old(Entry(name).isDirectory && Entry(name).next != INODE_NULL)
      ensures result == Busy ==> old(Entry(name).isFile && Entry(name).refcount > 0)
      ensures result == Gone <==> old(Removable(name))
      ensures result != Gone ==>
                && Valid() && Contents() == old(Contents()) && maps == old(maps) && grid == old(grid)
                && vol.inodes == old(vol.inodes) && vol.blocks == old(vol.blocks)
                && data.live == old(data.live) && nodes.live == old(nodes.live)
                && Took(old(RoomsNow()), 0, 0)
      ensures result == Gone ==>
                && Mounted()
                && nodes.live == old(nodes.live) - {old(Contents()[name]) - nodes.regionStart}
                && old(Contents()[name]) - nodes.regionStart < BITS * |old(nodes.state).store|
                && nodes.state == Free(old(nodes.state), old(Contents()[name]) - nodes.regionStart)
                && Freed(data, old(data.state), old(data.live), old(GivenBack(name, r)))
      ensures result == Gone ==>
                && (old(Entry(name)).isDirectory ==> old(Entry(name)).next == INODE_NULL)
                && (old(Entry(name)).isFile ==> old(Entry(name)).refcount <= 0)
      ensures result == Gone && !old(EmptiesHead(name)) && |maps| < |old(maps)| ==>
                exists j :: 0 <= j < |old(maps)| && maps == old(maps)[..j] + old(maps)[j + 1..]
                            && TakesNext(data, old(maps)[j])
      ensures result == Gone && !old(EmptiesHead(name)) && |maps| == |old(maps)| && old(Entry(name)).isFile
              && old(Entry(name)).next != INODE_NULL ==>
                r.maps != [] && TakesNext(data, r.maps[|r.maps| - 1])
      ensures nodes.Size() == 1 && old(Exact(nodes.state, nodes.live)) ==> Exact(nodes.state, nodes.live)
      ensures data.Size() == 1 && old(Exact(data.state, data.live)) ==> Exact(data.state, data.live)
      ensures result == Gone ==> (Valid() <==> !old(EmptiesHead(name)))
      ensures result == Gone && !old(EmptiesHead(name)) ==>
                && Contents() == old(Contents()) - {name}
                && OneMore(Listing(grid), old(Contents()[name]), old(Listing(grid)))
                && old(Contents()[name]) !in Listing(grid)
                && TakenOff(old(Listing(grid)), old(Contents()[name]), Listing(grid))
                && TakenOut(old(maps), old(grid), old(Contents()[name]), maps, grid)
                && (forall m :: m in maps ==> m in old(maps))
                && (forall m :: m in old(maps) ==> m in maps || m in old(GivenBack(name, r)))
                && |maps| + |old(OnlyMaps(maps, grid, Contents()[name]))| == |old(maps)|
      ensures result == Gone && old(EmptiesHead(name)) ==> forall chain, rows :: !Represents(chain, rows)
      ensures forall b :: b in old(vol.inodes) && b != self ==> b in vol.inodes && vol.inodes[b] == old(vol.inodes[b])
      ensures KeptOutside(old(vol.blocks), vol.blocks, data.regionStart, old(maps))
    {
      hide TakesNext, TakenOut, TakenOff, WellShaped, DataLike, OneMore, Chain, Allocator.Valid, Linked, LiveWithout,
        InUse, Mounted, MapAt, Listing, Names, Entries, Encode, Compact, DirChain, OthersFilled, Exact, Freed, Free,
        FreeBlocks, Released, OnlyMaps;
      Shape();
      TwoAllocators();
      var found := Find(name);
      if found == INODE_NULL {
        return Missing;
      }
      var inode := vol.inodes[found];
      if inode.isDirectory && inode.next != INODE_NULL {
        return NotEmpty;
      }
      if inode.isFile && inode.refcount > 0 {
        return Busy;
      }
      ghost var grid0 := grid;
      EntryOf(Listing(grid), vol.inodes, name);
      ghost var j, s := ClearSlot(found);
      HoleLeft(maps, grid0, grid, vol.inodes, j, s);
      GiveBackData(inode, r, old(vol.blocks), j);
      FreedExactly(data, old(data.state), old(data.live),
        (if inode.isFile then Released(r) else []) + OnlyMaps(old(maps), grid0, found));
      NextAfterUnlink(data, old(data.state), old(data.live), old(vol.blocks), inode, r,
        OnlyMaps(old(maps), grid0, found));
      if |old(maps)| > 1 && Compact(grid0[0]) == [found] {
        DanglingIsBroken();
      } else {
        EntriesRelinked(Listing(grid), old(vol.inodes), vol.inodes, nodes.live, nodes.regionStart, self);
        ClearedOut(old(maps), grid0, j, s, maps, grid);
        assert |maps| < |old(maps)| ==> maps == old(maps)[..j] + old(maps)[j + 1..] && TakesNext(data, old(maps)[j]);
      }
      result := Gone;
    }

    /** The directory was valid on disk `d` with the inodes `inodes`, while the data blocks
        `live` were in use; of the allocators it looks at the one for inodes only. */
    ghost predicate StoodOn(d: Disk, inodes: Inodes, live: set<nat>)
      reads this, nodes, nodes.window
    {
      && nodes.ValidOn(d)
      && self in inodes && inodes[self].self == self && DirChain(d, inodes[self].next, maps, grid)
      && (forall b :: b in maps ==> b >= data.regionStart && b - data.regionStart in live)
      && Entries(Listing(grid), inodes, nodes.live, nodes.regionStart, self) && NoEmptyRow(grid)
    }

    lemma StandsNow()
      requires Valid()
      ensures StoodOn(vol.blocks, vol.inodes, data.live) && Placed()
    {
    }

    /** A call on an open file of the directory, whatever it grows and writes, leaves the
        directory as it was: its chain, its entries and its names. */
    lemma CallKeepsDirectory(f: OpenFile, d: Disk, inodes: Inodes, live: set<nat>, r: Rep)
      requires f.vol == vol && f.alloc == data && StoodOn(d, inodes, live) && Placed()
      requires forall m :: m in maps ==> m !in BlocksOf(r)
      requires f.inode.self in Listing(grid) && f.inode.self in inodes
      requires Identity(f.inode) == Identity(inodes[f.inode.self])
      requires f.Mounted() && f.GrownSince(d, live, r) && f.SameFile(inodes, Identity(f.inode))
      ensures Valid() && Distinct(Listing(grid), inodes) && Contents() == Names(Listing(grid), inodes)
      ensures forall m :: m in maps ==> m !in BlocksOf(f.rep)
    {
      hide Safe, DirChain, Entries, Listing, MapBits, BlockAt, Distinct, NoEmptyRow;
      MapBitsFrame(d, vol.blocks, nodes.mapStart, nodes.Size());
      DirChainFrame(d, vol.blocks, inodes[self].next, maps, grid);
      EntriesSame(Listing(grid), inodes, vol.inodes, nodes.live, nodes.regionStart, self);
      EntriesAreOthers(Listing(grid), inodes, nodes.live, nodes.regionStart, self);
      EntriesDistinct(Listing(grid), inodes, nodes.live, nodes.regionStart, self);
    }

    /** What a caller can check before inode_free: the first map of several lists only the name. */
    method AtRisk(name: string) returns (risk: bool)
      requires Valid()
      ensures risk <==> EmptiesHead(name)
    {
      hide MapAt, Mounted, Linked, Compact, Listing;
      Shape();
      ListedFacts();
      var found := Find(name);
      if found == INODE_NULL || vol.inodes[self].next == INODE_NULL {
        return false;
      }
      var head := vol.MapRead(vol.inodes[self].next);
      RowListed(0);
      if head.next == INODE_NULL {
        return false;
      }
      risk := true;
      var i := 0;
      while i < BMAP_BLOCKS
        invariant i <= BMAP_BLOCKS && (risk <==> forall t :: 0 <= t < i ==>
                  head.blocks[t] == INODE_NULL || head.blocks[t] == found)
      {
        if head.blocks[i] != INODE_NULL && head.blocks[i] != found {
          risk := false;
        }
        i := i + 1;
      }
      RowOfOneEntry(grid, vol.inodes, 0, found);
    }
  }
}
