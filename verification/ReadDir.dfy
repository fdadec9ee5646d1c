// Reading a directory (dir.c): kreaddir walks the chain of maps with a cached position and
// yields ".", "..", and then every used slot in chain order.
module Enumeration {
  import opened Wrappers
  import opened Blocks
  import opened BlockMaps
  import opened FileChain
  import opened Volumes
  import opened DirSpec
  import opened Directories

  datatype Item = Dot | DotDot | Entry(ino: nat)

  datatype Dirent = Dirent(name: string, kind: char, ino: nat, off: nat, reclen: nat)

  const NO_KIND: char := '\0'

  // d_reclen is an unsigned short.
  const RECLEN_LIMIT := 0x1_0000

  function KindOf(node: InodeRecord): char {
    if node.isFile then 'F' else if node.isDirectory then 'D' else NO_KIND
  }

  function Items(l: seq<nat>): (r: seq<Item>)
    ensures |r| == |l|
  {
    seq(|l|, i requires 0 <= i < |l| => Entry(l[i]))
  }

  lemma ItemsNext(b: nat, l: seq<nat>)
    ensures Items([b] + l) == [Entry(b)] + Items(l)
  {
  }

  lemma ItemsAt(l: seq<nat>, i: nat)
    requires i < |l|
    ensures Items(l)[i] == Entry(l[i])
  {
  }

  /** The entries from slot `slot` of row `row` on. */
  function FromSlot(grid: Grid, row: nat, slot: nat): seq<nat>
    requires slot <= BMAP_BLOCKS
  {
    if row < |grid| then Compact(grid[row][slot..]) + Listing(grid[row + 1..]) else []
  }

  /** The entries from slot number `n` of the directory on, counting 127 slots for each map. */
  function ListingFrom(grid: Grid, n: nat): seq<nat> {
    FromSlot(grid, n / BMAP_BLOCKS, n % BMAP_BLOCKS)
  }

  lemma NextSlotNumber(n: nat)
    ensures n % BMAP_BLOCKS < BMAP_BLOCKS - 1 ==>
              (n + 1) / BMAP_BLOCKS == n / BMAP_BLOCKS && (n + 1) % BMAP_BLOCKS == n % BMAP_BLOCKS + 1
    ensures n % BMAP_BLOCKS == BMAP_BLOCKS - 1 ==>
              (n + 1) / BMAP_BLOCKS == n / BMAP_BLOCKS + 1 && (n + 1) % BMAP_BLOCKS == 0
  {
  }

  function Used(b: Word): seq<nat> {
    if b == INODE_NULL then [] else [b]
  }

  lemma RowTail(row: Slots, s: nat)
    requires s < BMAP_BLOCKS
    ensures Compact(row[s..]) == Used(row[s]) + Compact(row[s + 1..])
    ensures s == BMAP_BLOCKS - 1 ==> Compact(row[s + 1..]) == []
  {
    hide Compact;
    var rest := row[s..];
    SplitAt(rest, 0);
    CompactJoin([rest[0]], rest[1..]);
    CompactOfOne(rest[0]);
    assert rest[..0] + ([rest[0]] + rest[1..]) == [rest[0]] + rest[1..] && rest[1..] == row[s + 1..];
    if s == BMAP_BLOCKS - 1 {
      CompactZeros(rest[1..]);
    }
  }

  lemma RowsTail(grid: Grid, r: nat)
    requires r <= |grid|
    ensures Listing(grid[r..]) == if r < |grid| then Compact(grid[r][0..]) + Listing(grid[r + 1..]) else []
  {
    hide Compact, Listing;
    var rows := grid[r..];
    if r < |grid| {
      SplitAt(rows, 0);
      ListingJoin([rows[0]], rows[1..]);
      ListingOfOne(rows[0]);
      assert rows[..0] + ([rows[0]] + rows[1..]) == [rows[0]] + rows[1..] && rows[1..] == grid[r + 1..];
      assert grid[r][0..] == grid[r];
    } else {
      EmptyListing(rows);
    }
  }

  lemma ListingFromStart(grid: Grid)
    ensures ListingFrom(grid, 0) == Listing(grid)
  {
    hide Compact, Listing;
    RowsTail(grid, 0);
    assert grid[0..] == grid;
  }

  lemma SlotNext(grid: Grid, row: nat, slot: nat)
    requires row < |grid| && slot < BMAP_BLOCKS
    ensures FromSlot(grid, row, slot) == Used(grid[row][slot])
              + if slot == BMAP_BLOCKS - 1 then FromSlot(grid, row + 1, 0) else FromSlot(grid, row, slot + 1)
  {
    hide Compact, Listing, Used;
    RowTail(grid[row], slot);
    var behind := Listing(grid[row + 1..]);
    if slot == BMAP_BLOCKS - 1 {
      RowsTail(grid, row + 1);
      Regroup(Used(grid[row][slot]), [], behind);
    } else {
      Regroup(Used(grid[row][slot]), Compact(grid[row][slot + 1..]), behind);
    }
  }

  /** One slot on: its entry, if it is used, and then the entries behind it. */
  lemma ListingFromNext(grid: Grid, n: nat)
    requires n / BMAP_BLOCKS < |grid|
    ensures ListingFrom(grid, n) == Used(grid[n / BMAP_BLOCKS][n % BMAP_BLOCKS]) + ListingFrom(grid, n + 1)
  {
    hide Used, FromSlot;
    NextSlotNumber(n);
    SlotNext(grid, n / BMAP_BLOCKS, n % BMAP_BLOCKS);
  }

  class DirStream {
    const vol: Volume
    const path: string
    const next: nat           // head of the chain, from the inode read by kopendir
    var offset: nat
    var blockPtr: nat
    var block: nat
    ghost const maps: seq<Word>
    ghost const grid: Grid

    /** kopendir. */
    constructor (dir: Directory, path: string)
      requires dir.Valid()
      ensures Valid() && Upcoming() == [Dot, DotDot] + Items(Listing(dir.grid))
      ensures vol == dir.vol && this.path == path && grid == dir.grid
    {
      dir.Shape();
      this.vol, this.path, next := dir.vol, path, dir.vol.inodes[dir.self].next;
      offset, blockPtr, block := 0, 0, INODE_NULL;
      maps, grid := dir.maps, dir.grid;
      new;
      ListingFromStart(grid);
      dir.ListedFacts();
    }

    /** The directory is on disk as it was, and the cached block is map `blockPtr`. */
    ghost predicate Valid()
      reads this, vol
    {
      && DirChain(vol.blocks, next, maps, grid)
      && (forall b :: b in Listing(grid) ==> b in vol.inodes)
      && offset <= 2 + BMAP_BLOCKS * |maps|
      && (block != INODE_NULL ==> blockPtr < |maps| && block == maps[blockPtr])
    }

    /** What the stream has still to yield. */
    ghost function Upcoming(): seq<Item>
      reads this
    {
      if offset == 0 then [Dot, DotDot] + Items(Listing(grid))
      else if offset == 1 then [DotDot] + Items(Listing(grid))
      else Items(ListingFrom(grid, offset - 2))
    }

    ghost predicate Shows(e: Dirent, item: Item)
      reads vol
    {
      match item
      case Dot => e == Dirent(path + "/.", NO_KIND, 0, 0, 0)
      case DotDot => e == Dirent(path + "/..", NO_KIND, 0, 0, 0)
      case Entry(b) =>
        && b in vol.inodes
        && e.ino == b && e.name == path + "/" + vol.inodes[b].path
        && e.kind == KindOf(vol.inodes[b]) && e.reclen == vol.inodes[b].size % RECLEN_LIMIT
        && exists j :: 0 <= j < |grid| && e.off < BMAP_BLOCKS && grid[j][e.off] == b
    }

    /** krewinddir. */
    method Rewind()
      requires Valid()
      modifies this`offset
      ensures Valid() && Upcoming() == [Dot, DotDot] + Items(Listing(grid))
    {
      offset := 0;
    }

    /** Walk the chain to map `row`; fail if it is too short. */
    method ScanTo(row: nat) returns (ok: bool)
      requires Valid()
      modifies this`blockPtr, this`block
      ensures Valid() && (ok <==> row < |maps|) && Upcoming() == old(Upcoming())
      ensures ok ==> blockPtr == row && block != INODE_NULL
    {
      hide MapAt, Listing, ListingFrom;
      blockPtr, block := 0, next;
      while blockPtr < row
        invariant blockPtr <= row && blockPtr <= |maps|
        invariant block == if blockPtr < |maps| then maps[blockPtr] else INODE_NULL
        invariant offset == old(offset)
      {
        if block == INODE_NULL {
          return false;
        }
        var bmap := vol.MapRead(block);
        assert bmap == BlockMap(Link(maps, blockPtr), grid[blockPtr]);
        block := bmap.next;
        blockPtr := blockPtr + 1;
      }
      ok := block != INODE_NULL;
    }

    /** The slot at the offset, in the cached map: its entry, or none if it is not used. */
    method ReadSlot() returns (r: Option<Dirent>)
      requires Valid() && offset >= 2
      requires blockPtr == (offset - 2) / BMAP_BLOCKS && block != INODE_NULL
      modifies this`offset
      ensures Valid() && offset == old(offset) + 1
      ensures r == None ==> Upcoming() == old(Upcoming())
      ensures r.Some? ==>
                old(Upcoming()) != [] && Shows(r.value, old(Upcoming())[0]) && Upcoming() == old(Upcoming())[1..]
    {
      hide Compact, Listing, ListingFrom, MapAt, Items;
      var slot := (offset - 2) % BMAP_BLOCKS;
      var bmap := vol.MapRead(block);
      assert bmap == BlockMap(Link(maps, blockPtr), grid[blockPtr]);
      ListingFromNext(grid, offset - 2);
      offset := offset + 1;
      if bmap.blocks[slot] == INODE_NULL {
        assert [] + ListingFrom(grid, offset - 2) == ListingFrom(grid, offset - 2);
        return None;
      }
      var b := bmap.blocks[slot];
      SlotIsListed(blockPtr, slot);
      ItemsNext(b, ListingFrom(grid, offset - 2));
      var node := vol.inodes[b];
      return Some(Dirent(path + "/" + node.path, KindOf(node), b, slot, node.size % RECLEN_LIMIT));
    }

    /** Behind the last map there is nothing to read. */
    lemma NothingBehind()
      requires Valid() && offset >= 2 && (offset - 2) / BMAP_BLOCKS >= |maps|
      ensures Upcoming() == []
    {
    }

    /** The two virtual entries. */
    method ReadDots() returns (e: Dirent)
      requires Valid() && offset < 2
      modifies this`offset
      ensures Valid() && offset == old(offset) + 1
      ensures old(Upcoming()) != [] && Shows(e, old(Upcoming())[0]) && Upcoming() == old(Upcoming())[1..]
    {
      hide Compact, Listing, ListingFrom, MapAt, Items;
      ListingFromStart(grid);
      e := Dirent(path + if offset == 0 then "/." else "/..", NO_KIND, 0, 0, 0);
      offset := offset + 1;
    }

    /** kreaddir: yield the next item, or none, and then none again. */
    method ReadDir() returns (r: Option<Dirent>)
      requires Valid()
      modifies this`offset, this`blockPtr, this`block
      ensures Valid()
      ensures old(Upcoming()) == [] ==> r == None && Upcoming() == []
      ensures old(Upcoming()) != [] ==>
                r.Some? && Shows(r.value, old(Upcoming())[0]) && Upcoming() == old(Upcoming())[1..]
      ensures r.Some? ==>
                match old(Upcoming())[0]
                case Dot => r.value.name == path + "/." && r.value.kind == '\0' && r.value.ino == 0 == r.value.off
                case DotDot => r.value.name == path + "/.." && r.value.kind == '\0' && r.value.ino == 0 == r.value.off
                case Entry(b) =>
                  && b in vol.inodes && r.value.ino == b && r.value.name == path + "/" + vol.inodes[b].path
                  && (vol.inodes[b].isFile ==> r.value.kind == 'F')
                  && (vol.inodes[b].isDirectory && !vol.inodes[b].isFile ==> r.value.kind == 'D')
                  && (vol.inodes[b].size < 0x1_0000 ==> r.value.reclen == vol.inodes[b].size)
                  && exists j :: 0 <= j < |grid| && r.value.off < BMAP_BLOCKS && grid[j][r.value.off] == b
    {
      hide Valid, Upcoming, Shows;
      if offset < 2 {
        var e := ReadDots();
        ShownAs(e, old(Upcoming())[0]);
        return Some(e);
      }
      ghost var up := Upcoming();
      r := None;
      while r == None
        invariant Valid() && offset >= 2
        invariant r == None ==> Upcoming() == up
        invariant r.Some? ==> up != [] && Shows(r.value, up[0]) && Upcoming() == up[1..]
        decreases r == None, 2 + BMAP_BLOCKS * |maps| - offset, Behind()
      {
        OffsetFits();
        var row := (offset - 2) / BMAP_BLOCKS;
        if blockPtr == row && block != INODE_NULL {
          r := ReadSlot();
        } else {
          var ok := ScanTo(row);
          if !ok {
            NothingBehind();
            return None;
          }
        }
      }
      ShownAs(r.value, up[0]);
    }

    lemma ShownAs(e: Dirent, item: Item)
      requires Shows(e, item)
      ensures match item
              case Dot => e.name == path + "/." && e.kind == '\0' && e.ino == 0 == e.off
              case DotDot => e.name == path + "/.." && e.kind == '\0' && e.ino == 0 == e.off
              case Entry(b) =>
                && b in vol.inodes && e.ino == b && e.name == path + "/" + vol.inodes[b].path
                && (vol.inodes[b].isFile ==> e.kind == 'F')
                && (vol.inodes[b].isDirectory && !vol.inodes[b].isFile ==> e.kind == 'D')
                && (vol.inodes[b].size < 0x1_0000 ==> e.reclen == vol.inodes[b].size)
                && exists j :: 0 <= j < |grid| && e.off < BMAP_BLOCKS && grid[j][e.off] == b
    {
    }

    lemma AtStart()
      requires offset == 0
      ensures Upcoming() == [Dot, DotDot] + Items(Listing(grid))
    {
    }

    lemma OffsetFits()
      requires Valid()
      ensures offset <= 2 + BMAP_BLOCKS * |maps|
    {
    }

    /** 0 if the cached block is the map of the offset. */
    function Behind(): nat
      reads this
    {
      if offset >= 2 && blockPtr == (offset - 2) / BMAP_BLOCKS && block != INODE_NULL then 0 else 1
    }

    lemma SlotIsListed(j: nat, s: nat)
      requires j < |grid| && s < BMAP_BLOCKS && grid[j][s] != INODE_NULL
      ensures grid[j][s] in Listing(grid)
    {
      CompactHas(grid[j], grid[j][s]);
      ListingHas(grid, grid[j][s]);
    }

    /** Reading until there is nothing left yields every entry of the directory once, in
        order, after "." and "..". */
    method ReadAll() returns (es: seq<Dirent>)
      requires Valid() && offset == 0
      modifies this`offset, this`blockPtr, this`block
      ensures Valid() && Upcoming() == []
      ensures |es| == 2 + |Listing(grid)|
      ensures Shows(es[0], Dot) && Shows(es[1], DotDot)
      ensures forall i :: 0 <= i < |Listing(grid)| ==> Shows(es[i + 2], Entry(Listing(grid)[i]))
    {
      hide Valid, Upcoming, Shows, Listing, Items;
      AtStart();
      ghost var all := Upcoming();
      es := [];
      while true
        invariant Valid() && |es| <= |all| && Upcoming() == all[|es|..]
        invariant forall i :: 0 <= i < |es| ==> Shows(es[i], all[i])
        decreases |all| - |es|
      {
        var e := ReadDir();
        if e.None? {
          break;
        }
        es := es + [e.value];
      }
      assert |es| == |all|;
      forall i | 0 <= i < |Listing(grid)| ensures all[i + 2] == Entry(Listing(grid)[i]) {
        ItemsAt(Listing(grid), i);
      }
    }
  }
}
