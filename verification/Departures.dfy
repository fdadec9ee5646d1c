// Directories for which inode_free and inode_create do not do what they are for.
module Departures {
  import opened Wrappers
  import opened Counting
  import opened Blocks
  import opened BlockMaps
  import opened AllocSpec
  import opened Volumes
  import opened DirSpec
  import opened Directories

  // Inode blocks from 10 on, the directory in the first; data blocks from 1000 on.
  const NODES := 10
  const DATA := 1000

  /** The inodes of two files. */
  function TwoInodes(): Inodes {
    map[NODES + 1 := NewInode("a", false, NODES + 1, NODES), NODES + 2 := NewInode("b", false, NODES + 2, NODES)]
  }

  lemma TwoEntries()
    ensures var l := [NODES + 1, NODES + 2];
            Entries(l, TwoInodes(), {0, 1, 2}, NODES, NODES)
              && Names(l, TwoInodes()) == map["a" := NODES + 1, "b" := NODES + 2]
  {
    var l := [NODES + 1, NODES + 2];
    assert "a" != "b" && Distinct(l, TwoInodes());
    NamesAt(l, TwoInodes(), NODES + 1);
    NamesAt(l, TwoInodes(), NODES + 2);
  }

  lemma TwoRows()
    ensures var grid := [RowOf(NODES + 1), RowOf(NODES + 2)];
            Listing(grid) == [NODES + 1, NODES + 2] && NoEmptyRow(grid)
              && AloneInFirst([DATA, DATA + 1], grid, NODES + 1)
  {
    hide Compact, RowOf;
    var first, second := RowOf(NODES + 1), RowOf(NODES + 2);
    ListingAppended([], NODES + 1);
    ListingAppended([first], NODES + 2);
    assert [] + [first] == [first] && [first] + [second] == [first, second];
    EmptyListing([]);
  }

  /** Two maps with one file each: the directory is sound, and "a" is the only entry of the
      first map, so removing "a" frees the map that the directory goes on pointing to. */
  lemma HeadCanBeEmptied() returns (d: Disk)
    ensures var maps, grid, inodes := [DATA, DATA + 1], [RowOf(NODES + 1), RowOf(NODES + 2)], TwoInodes();
            && DirChain(d, DATA, maps, grid) && NoEmptyRow(grid)
            && Entries(Listing(grid), inodes, {0, 1, 2}, NODES, NODES)
            && Names(Listing(grid), inodes) == map["a" := NODES + 1, "b" := NODES + 2]
            && AloneInFirst(maps, grid, Names(Listing(grid), inodes)["a"])
  {
    hide Encode, Compact, RowOf, Listing, Names, Entries, TwoInodes, AloneInFirst, NoEmptyRow;
    TwoEntries();
    TwoRows();
    var first, second := RowOf(NODES + 1), RowOf(NODES + 2);
    var d0 := map[DATA := Encode(BlockMap(INODE_NULL, first))];
    d := d0[DATA := Encode(BlockMap(DATA + 1, first))][DATA + 1 := Encode(BlockMap(INODE_NULL, second))];
    FirstMapWritten(map[], DATA, first);
    MapAppended(d0, DATA, [DATA], [first], DATA + 1, second);
    assert [first] + [second] == [first, second] && [DATA] + [DATA + 1] == [DATA, DATA + 1];
  }

  /** A map without a free slot. */
  function FullRow(): Slots {
    seq(BMAP_BLOCKS, i => NODES + 1 + i)
  }

  lemma {:induction false} CompactFull(row: seq<Word>)
    requires INODE_NULL !in row
    ensures Compact(row) == row
  {
    if row != [] {
      CompactFull(row[..|row| - 1]);
    }
  }

  /** 127 files with names of different lengths. */
  function FileNode(b: nat): InodeRecord {
    NewInode(seq(b, _ => 'a'), false, b, NODES)
  }

  function FullInodes(): Inodes {
    map b | b in Interval(NODES + 1, BMAP_BLOCKS) :: FileNode(b)
  }

  lemma FullListed(b: nat)
    requires b in FullRow()
    ensures b > NODES && b in FullInodes() && FullInodes()[b] == FileNode(b) && |FileNode(b).path| == b
    ensures b - NODES in Interval(0, BITS) && WellMade(FileNode(b), b, NODES)
  {
    assert b in Interval(NODES + 1, BMAP_BLOCKS);
  }

  lemma FullDistinct()
    ensures Distinct(FullRow(), FullInodes())
  {
    hide FullInodes;
    var l, inodes := FullRow(), FullInodes();
    forall b: nat | b in l ensures b in inodes {
      FullListed(b);
    }
    forall i, j | 0 <= i < |l| && 0 <= j < |l| && i != j ensures inodes[l[i]].path != inodes[l[j]].path {
      FullListed(l[i]);
      FullListed(l[j]);
    }
  }

  lemma FullEntries()
    ensures Entries(FullRow(), FullInodes(), Interval(0, BITS), NODES, NODES)
    ensures "b" !in Names(FullRow(), FullInodes())
  {
    hide FullInodes, FullRow, Names, Distinct, WellMade, FileNode, Interval;
    FullDistinct();
    var l, inodes := FullRow(), FullInodes();
    forall b: nat | b in l
      ensures b > NODES && b - NODES in Interval(0, BITS) && b in inodes && WellMade(inodes[b], b, NODES)
    {
      FullListed(b);
    }
    forall n | n in Names(l, inodes) ensures |n| > 1 {
      EntryOf(l, inodes, n);
      FullListed(Names(l, inodes)[n]);
    }
  }

  /** A sound directory without a free slot, when no inode block is left and a data block is:
      creating "b" links one more map, which was never written, and then finds no inode for it. */
  lemma CreateCanStrand() returns (d: Disk)
    ensures var maps, grid := [DATA], [FullRow()];
            && DirChain(d, DATA, maps, grid) && NoEmptyRow(grid) && NoSlotHolds(grid, INODE_NULL)
            && Entries(Listing(grid), FullInodes(), Interval(0, BITS), NODES, NODES)
            && "b" !in Names(Listing(grid), FullInodes())
    ensures BlockAt(d, DATA + 1) == Zeros(BLOCK_SIZE)
    ensures Exact(FullMap(1), Interval(0, BITS)) && Get(FullMap(1)).1.None?
    ensures Exact(Allocs(Blank(1), 1), {0}) && Get(Allocs(Blank(1), 1)).1 == Some(1)
  {
    hide Exact, Entries, Names, FullInodes, Encode, Get, Compact, Distinct, Interval;
    var row := FullRow();
    d := map[][DATA := Encode(BlockMap(INODE_NULL, row))];
    FullEntries();
    EntriesDistinct(row, FullInodes(), Interval(0, BITS), NODES, NODES);
    FirstMapWritten(map[], DATA, row);
    CompactFull(row);
    ListingOfOne(row);
    FullMapIsReached(1);
    GetIsExact(FullMap(1), Interval(0, BITS));
    FirstTaken();
  }

  lemma FirstTaken()
    ensures Exact(Allocs(Blank(1), 1), {0}) && Get(Allocs(Blank(1), 1)).1 == Some(1)
  {
    hide Exact;
    FreshMapIsSafe(1, []);
    FirstOfBlank();
    GetIsExact(Blank(1), {});
    assert LiveAfter(Blank(1), {}, Alloc) == {0};
    var t := Allocs(Blank(1), 1);
    assert t.window[0] && FirstClear(t.window, 1) == 1;
  }

  lemma FirstOfBlank()
    ensures Get(Blank(1)).1 == Some(0) && Allocs(Blank(1), 1) == Get(Blank(1)).0
  {
    assert FirstClear(Blank(1).window, 0) == 0;
  }
}
