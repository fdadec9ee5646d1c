// Reading and writing files (file.c): the walk over the block chain, the byte loop, and
// the calls kread, kwrite and klseek on one open inode.
module FileData {
  import opened Wrappers
  import opened Counting
  import opened Blocks
  import opened BlockMaps
  import opened FileChain
  import opened AllocSpec
  import opened Allocation
  import opened Volumes

  const INODE_NOPOS := -1
  const SSIZE_MAX := 2147483647
  const POS_LIMIT := 0x1_0000_0000_0000_0000
  const GAP_LIMIT := BLOCK_SIZE * WORD_LIMIT

  /** Every block live in `live` and not listed in `changed` reads as before. */
  ghost predicate KeptBlocks(before: Disk, after: Disk, start: nat, live: set<nat>, changed: seq<nat>) {
    forall b: nat :: b >= start && b - start in live && b !in changed ==> BlockAt(after, b) == BlockAt(before, b)
  }

  /** Every block in `bs` is listed in `ours` or was not live. */
  ghost predicate OursOrFresh(bs: seq<nat>, start: nat, live: set<nat>, ours: seq<nat>) {
    forall b :: b in bs ==> b in ours || !(b >= start && b - start in live)
  }

  /** What became live since `live0` is in `bs`. */
  ghost predicate LiveFor(start: nat, live0: set<nat>, live1: set<nat>, bs: seq<nat>) {
    forall n :: n in live1 ==> n in live0 || n + start in bs
  }

  lemma LiveForThrough(start: nat, live0: set<nat>, live1: set<nat>, live2: set<nat>, bs: seq<nat>, cs: seq<nat>)
    requires LiveFor(start, live0, live1, bs) && LiveFor(start, live1, live2, cs)
    requires forall b :: b in bs ==> b in cs
    ensures LiveFor(start, live0, live2, cs)
  {
  }

  lemma FreshThrough(before: seq<nat>, after: seq<nat>, start: nat, live0: set<nat>, live1: set<nat>, ours: seq<nat>)
    requires live0 <= live1 && OursOrFresh(before, start, live0, ours) && OursOrFresh(after, start, live1, before)
    ensures OursOrFresh(after, start, live0, ours)
  {
  }

  lemma WrapByte(byte: nat)
    requires byte <= BLOCK_SIZE
    ensures byte % BLOCK_SIZE == if byte == BLOCK_SIZE then 0 else byte
  {
  }

  lemma SameAfterRewrite(d: Disk, b: nat)
    ensures SameBlocks(d, d[b := BlockAt(d, b)])
  {
  }

  lemma SameThrough(d0: Disk, d1: Disk, d2: Disk)
    requires SameBlocks(d0, d1) && SameBlocks(d1, d2)
    ensures SameBlocks(d0, d2)
  {
    forall b: nat ensures BlockAt(d0, b) == BlockAt(d2, b) {
      assert BlockAt(d0, b) == BlockAt(d1, b);
    }
  }

  lemma KeptThrough(d0: Disk, d1: Disk, d2: Disk, start: nat, live0: set<nat>, live1: set<nat>, ours: seq<nat>,
                    changed: seq<nat>)
    requires KeptBlocks(d0, d1, start, live0, ours) && KeptBlocks(d1, d2, start, live1, changed)
    requires live0 <= live1 && OursOrFresh(changed, start, live0, ours)
    ensures KeptBlocks(d0, d2, start, live0, ours)
  {
    forall b: nat | b >= start && b - start in live0 && b !in ours ensures BlockAt(d2, b) == BlockAt(d0, b) {
      assert BlockAt(d1, b) == BlockAt(d0, b);
    }
  }

  /** Outside the data region and its map, two disks read the same. */
  ghost predicate RestSame(alloc: Allocator, d0: Disk, d1: Disk) {
    forall b: nat :: b < alloc.regionStart && !(alloc.mapStart <= b < alloc.mapEnd) ==> BlockAt(d1, b) == BlockAt(d0, b)
  }

  lemma RestOfDataWrite(alloc: Allocator, d: Disk, b: nat, x: Block)
    requires b >= alloc.regionStart
    ensures RestSame(alloc, d, d[b := x])
  {
  }

  lemma RestThrough(alloc: Allocator, d0: Disk, d1: Disk, d2: Disk)
    requires RestSame(alloc, d0, d1) && RestSame(alloc, d1, d2)
    ensures RestSame(alloc, d0, d2)
  {
    forall b: nat | b < alloc.regionStart && !(alloc.mapStart <= b < alloc.mapEnd) ensures BlockAt(d2, b)
      == BlockAt(d0, b) {
      assert BlockAt(d1, b) == BlockAt(d0, b);
    }
  }

  /** From disk `d0` to `d1`: nothing else changed than the data region and its map, nothing live
      was freed, the chain `r0` grew to `r1` by fresh blocks, all that became live, and of the
      live blocks only those of the chain changed. */
  ghost predicate Grown(alloc: Allocator, d0: Disk, d1: Disk, live0: set<nat>, live1: set<nat>, r0: Rep, r1: Rep) {
    var start := alloc.regionStart;
    && RestSame(alloc, d0, d1)
    && live0 <= live1 && LiveFor(start, live0, live1, BlocksOf(r1))
    && r0.maps <= r1.maps && r0.blks <= r1.blks
    && OursOrFresh(r1.maps, start, live0, BlocksOf(r0))
    && OursOrFresh(r1.blks, start, live0, BlocksOf(r0))
    && KeptBlocks(d0, d1, start, live0, BlocksOf(r0))
  }

  /** Growth upon growth. */
  lemma GrownTwice(alloc: Allocator, d0: Disk, d1: Disk, d2: Disk, live0: set<nat>, live1: set<nat>, live2: set<nat>,
                   r0: Rep, r1: Rep, r2: Rep)
    requires Grown(alloc, d0, d1, live0, live1, r0, r1) && Grown(alloc, d1, d2, live1, live2, r1, r2)
    ensures Grown(alloc, d0, d2, live0, live2, r0, r2)
  {
    hide KeptBlocks, RestSame;
    var start := alloc.regionStart;
    RestThrough(alloc, d0, d1, d2);
    assert OursOrFresh(BlocksOf(r1), start, live0, BlocksOf(r0));
    LiveForThrough(start, live0, live1, live2, BlocksOf(r1), BlocksOf(r2));
    KeptThrough(d0, d1, d2, start, live0, live1, BlocksOf(r0), BlocksOf(r1));
    FreshThrough(BlocksOf(r1), r2.maps, start, live0, live1, BlocksOf(r0));
    FreshThrough(BlocksOf(r1), r2.blks, start, live0, live1, BlocksOf(r0));
  }

  /** Growth in which of the live blocks only maps of the chain changed. */
  lemma StepGrows(alloc: Allocator, d0: Disk, d1: Disk, live0: set<nat>, live1: set<nat>, r0: Rep, r1: Rep)
    requires RestSame(alloc, d0, d1) && live0 <= live1 && LiveFor(alloc.regionStart, live0, live1, BlocksOf(r1))
    requires r0.maps <= r1.maps && r0.blks <= r1.blks
    requires OursOrFresh(r1.maps, alloc.regionStart, live0, r0.maps)
    requires OursOrFresh(r1.blks, alloc.regionStart, live0, r0.blks)
    requires KeptBlocks(d0, d1, alloc.regionStart, live0, r0.maps)
    ensures Grown(alloc, d0, d1, live0, live1, r0, r1)
  {
    hide RestSame;
    assert forall b :: b in r0.maps || b in r0.blks ==> b in BlocksOf(r0);
  }

  ghost predicate InUse(bs: seq<nat>, start: nat, live: set<nat>) {
    forall b :: b in bs ==> b >= start && b - start in live
  }

  ghost predicate Apart(r: Rep, s: Rep) {
    forall b :: b in BlocksOf(r) ==> b !in BlocksOf(s)
  }

  /** Isolation: whatever a call on one file grows and writes, a file made of other live
      blocks keeps its chain and every byte, and the two stay apart. */
  lemma Isolation(alloc: Allocator, d0: Disk, d1: Disk, live0: set<nat>, live1: set<nat>, r0: Rep, r1: Rep,
                  next: nat, other: Rep, c: seq<bv8>)
    requires Grown(alloc, d0, d1, live0, live1, r0, r1)
    requires Chain(d0, next, other) && HoldsBytes(d0, other.blks, c)
    requires InUse(BlocksOf(other), alloc.regionStart, live0) && Apart(other, r0)
    ensures Chain(d1, next, other) && HoldsBytes(d1, other.blks, c)
    ensures InUse(BlocksOf(other), alloc.regionStart, live1) && Apart(other, r1)
  {
    hide Chain, HoldsBytes, BlockAt;
    assert forall b :: b in other.maps ==> b in BlocksOf(other);
    assert forall b :: b in other.blks ==> b in BlocksOf(other);
    ChainFrame(d0, d1, next, other);
    BytesFrame(d0, d1, other.blks, c);
  }

  /** What a transfer never changes in an inode: its name, kind, place and parent. */
  function Identity(node: InodeRecord): InodeRecord {
    node.(next := INODE_NULL, size := 0, pos := 0, current := INODE_NULL, currentParent := INODE_NULL, iblock := 0)
  }

  /** At most the inode on disk of the file `id` changed, and it is still that file. */
  ghost predicate InodesKept(before: Inodes, after: Inodes, id: InodeRecord) {
    && (forall b :: b != id.self ==> (b in after <==> b in before))
    && (forall b :: b != id.self && b in before && b in after ==> after[b] == before[b])
    && (after == before || (id.self in after && Identity(after[id.self]) == id))
  }

  lemma InodeRewritten(inodes: Inodes, node: InodeRecord, after: InodeRecord)
    requires Identity(after) == Identity(node)
    ensures InodesKept(inodes, inodes, Identity(node))
              && InodesKept(inodes, inodes[after.self := after], Identity(node))
  {
  }

  lemma InodesTwice(a: Inodes, b: Inodes, c: Inodes, id: InodeRecord)
    requires InodesKept(a, b, id) && InodesKept(b, c, id)
    ensures InodesKept(a, c, id)
  {
  }

  /** What a call starts from: the disk, the live blocks, the chain of its file, the inodes, who
      the file is, the blocks it has or can get, and whether the map is exact. */
  datatype Start = Start(disk: Disk, live: set<nat>, rep: Rep, inodes: Inodes, id: InodeRecord, stock: nat, exact: bool)

  /** From `a` to `b` one file grew: all the blocks that were allocated went to it, and no
      other file, inode or live block changed. */
  ghost predicate Led(alloc: Allocator, a: Start, b: Start) {
    && Grown(alloc, a.disk, b.disk, a.live, b.live, a.rep, b.rep)
    && b.id == a.id && InodesKept(a.inodes, b.inodes, a.id)
    && b.stock == a.stock && (a.exact ==> b.exact)
  }

  lemma LedTwice(alloc: Allocator, a: Start, b: Start, c: Start)
    requires Led(alloc, a, b) && Led(alloc, b, c)
    ensures Led(alloc, a, c)
  {
    hide Grown, InodesKept;
    GrownTwice(alloc, a.disk, b.disk, c.disk, a.live, b.live, c.live, a.rep, b.rep, c.rep);
    InodesTwice(a.inodes, b.inodes, c.inodes, a.id);
  }

  /** The bytes `c` after a transfer of `data` at `off`. */
  function AfterTransfer(c: seq<bv8>, off: nat, data: seq<bv8>, reading: bool): seq<bv8>
    requires off <= |c|
  {
    if reading then c else Splice(c, off, data)
  }

  /** The walk of file_read_write: the map in hand, where it lies, the slot in it, and the
      data block of that slot with the buffer it was read into. */
  datatype Walk = Walk(bmap: BlockMap, current: nat, iblock: nat, start: nat, dptr: Block)

  class OpenFile {
    const vol: Volume
    const alloc: Allocator        // the data block allocator of the file system
    var inode: InodeRecord        // the inode in the file table
    ghost var rep: Rep            // its chain on disk
    ghost var contents: seq<bv8>  // the bytes of the file

    /** kopen takes the inode from disk and forgets the cursor it was saved with. */
    constructor (vol: Volume, alloc: Allocator, self: nat, append: bool, ghost rep: Rep, ghost contents: seq<bv8>)
      requires alloc.vol == vol && alloc.Valid() && alloc.mapEnd <= alloc.regionStart
      requires alloc.regionStart + BITS * alloc.Size() <= WORD_LIMIT
      requires self in vol.inodes && vol.inodes[self].self == self && vol.inodes[self].size == |contents|
      requires self < alloc.regionStart
      requires vol.inodes[self].next == INODE_NULL ==> contents == [] && rep == Rep([], [])
      requires vol.inodes[self].next != INODE_NULL ==>
                 && Chain(vol.blocks, vol.inodes[self].next, rep) && HoldsBytes(vol.blocks, rep.blks, contents)
                 && |contents| < BLOCK_SIZE * |rep.blks|
                 && (forall b :: b in rep.maps || b in rep.blks ==> alloc.IsLive(b))
      ensures this.vol == vol && this.alloc == alloc && this.rep == rep && this.contents == contents
      ensures Valid() && inode.self == self && inode.pos == (if append then |contents| else 0) && Loose()
      ensures Identity(inode) == Identity(vol.inodes[self]) && inode.next == vol.inodes[self].next
    {
      this.vol, this.alloc, this.rep, this.contents := vol, alloc, rep, contents;
      var stored := vol.inodes[self];
      inode := stored.(current := INODE_NULL, pos := if append then stored.size else 0,
        currentParent := INODE_NULL, iblock := 0);
    }

    /** The data region lies behind the maps, and its block numbers fit a word. */
    ghost predicate Mounted()
      reads alloc, vol`blocks, alloc.window
    {
      && alloc.vol == vol
      && alloc.Valid()
      && alloc.mapEnd <= alloc.regionStart
      && alloc.regionStart + BITS * alloc.Size() <= WORD_LIMIT
    }

    ghost predicate Owned(bs: seq<nat>)
      reads alloc`live
    {
      InUse(bs, alloc.regionStart, alloc.live)
    }

    /** The inode heads a chain of live blocks. */
    ghost predicate Linked()
      reads this, alloc, vol`blocks, alloc.window
    {
      && Mounted()
      && Chain(vol.blocks, inode.next, rep)
      && Owned(rep.maps) && Owned(rep.blks)
    }

    /** The cached cursor names the map, slot and block of the file position in the chain `r`. */
    ghost predicate CursorIn(r: Rep)
      reads this`inode
    {
      inode.current != INODE_NULL && inode.iblock != INODE_NOPOS ==>
        var q := inode.pos / BLOCK_SIZE;
        && inode.pos <= inode.size
        && q < |r.blks| && q / BMAP_BLOCKS < |r.maps|
        && inode.current == r.blks[q]
        && inode.currentParent == r.maps[q / BMAP_BLOCKS]
        && inode.iblock == q % BMAP_BLOCKS
    }

    ghost predicate CursorAgrees()
      reads this
    {
      CursorIn(rep)
    }

    lemma CursorGrows(r: Rep, s: Rep)
      requires CursorIn(r) && r.maps <= s.maps && r.blks <= s.blks
      ensures CursorIn(s)
    {
    }

    ghost predicate Valid()
      reads this, alloc, vol`blocks, alloc.window
    {
      && Mounted() && inode.self < alloc.regionStart
      && inode.size == |contents|
      && if inode.next == INODE_NULL then
           contents == [] && inode.current == INODE_NULL && rep == Rep([], [])
         else
           && Linked()
           && HoldsBytes(vol.blocks, rep.blks, contents)
           && |contents| < BLOCK_SIZE * |rep.blks|
           && CursorAgrees()
    }

    /** Byte `o` of a file lies in its block `o / 512`, which its map `o / 65024` names; the first
        map is that of the inode, and each map names the next. */
    lemma WhereByteLies(o: nat, j: nat)
      requires Valid() && o < |contents| && j < |rep.maps|
      ensures o / BLOCK_SIZE < |rep.blks| && o / MAP_BYTES < |rep.maps|
      ensures BlockAt(vol.blocks, rep.blks[o / BLOCK_SIZE])[o % BLOCK_SIZE] == contents[o]
      ensures MapAt(vol.blocks, rep.maps[o / MAP_BYTES]).blocks[o / BLOCK_SIZE % BMAP_BLOCKS]
              == rep.blks[o / BLOCK_SIZE]
      ensures rep.maps[0] == inode.next
      ensures MapAt(vol.blocks, rep.maps[j]).next == if j + 1 < |rep.maps| then rep.maps[j + 1] else INODE_NULL
    {
      hide Mounted, MapAt, Decode;
      var q := o / BLOCK_SIZE;
      assert q / BMAP_BLOCKS == o / MAP_BYTES;
      SlotOf(vol.blocks, inode.next, rep, q);
      LinkOf(vol.blocks, inode.next, rep, j);
      assert BlockHolds(BlockAt(vol.blocks, rep.blks[q]), contents, BLOCK_SIZE * q);
    }

    /** A map and no data block: what is left when the second allocation for an empty file fails. */
    ghost predicate Bare()
      reads this, alloc, vol`blocks, alloc.window
    {
      && Linked() && inode.self < alloc.regionStart
      && inode.next != INODE_NULL && rep == Rep([inode.next], []) && contents == [] && inode.size == 0
    }

    lemma BareIsNotValid()
      requires Bare()
      ensures !Valid()
    {
    }

    /** What a failed call leaves of a file whose chain started at `next`: a valid file, or a
        bare one if it had no blocks. */
    ghost predicate Left(next: nat)
      reads this, alloc, vol`blocks, alloc.window
    {
      Valid() || (Bare() && next == INODE_NULL)
    }

    lemma LeftIsPlaced()
      requires Valid() || Bare()
      ensures inode.self < alloc.regionStart && Mounted()
    {
    }

    lemma ValidSize()
      requires Valid()
      ensures inode.size == |contents| && Mounted()
      ensures inode.next == INODE_NULL ==> contents == [] && rep == Rep([], []) && |BlocksOf(rep)| == 0
      ensures inode.self < alloc.regionStart
    {
    }

    /** The walk stands on block `q` of the file. */
    ghost predicate At(q: nat, bmap: BlockMap, current: nat, iblock: nat)
      reads this`rep, vol`blocks
    {
      && q < |rep.blks| && q / BMAP_BLOCKS < |rep.maps|
      && current == rep.maps[q / BMAP_BLOCKS]
      && iblock == q % BMAP_BLOCKS
      && bmap == MapAt(vol.blocks, current)
    }

    /** The blocks the file has, and those it can still get. */
    ghost function Stock(): nat
      reads this`rep, alloc
    {
      |BlocksOf(rep)| + alloc.Room()
    }

    /** Every block allocated went to the file, and an exact map stayed exact. */
    ghost predicate Spent(stock: nat, exact: bool)
      reads this`rep, alloc
    {
      Stock() == stock && (exact ==> alloc.IsExact())
    }

    method WriteBlock(b: nat, d: Block)
      requires Mounted() && b >= alloc.regionStart
      modifies vol`blocks
      ensures Mounted() && vol.blocks == old(vol.blocks)[b := d]
    {
      MapBitsFrame(vol.blocks, vol.blocks[b := d], alloc.mapStart, alloc.Size());
      vol.BlockWrite(b, d);
    }

    /** inode_get_data_block, seen from a file: a block no file holds, and no file changes. */
    method GetDataBlock() returns (r: Option<Word>)
      requires Mounted()
      modifies alloc, alloc.window, vol`blocks
      ensures Mounted()
      ensures r.Some? ==>
                && r.value >= alloc.regionStart && r.value != INODE_NULL
                && !old(alloc.IsLive(r.value)) && alloc.IsLive(r.value)
                && alloc.live == old(alloc.live) + {r.value - alloc.regionStart}
      ensures r.None? <==> old(alloc.Room()) == 0
      ensures alloc.Room() == if r.None? then 0 else old(alloc.Room()) - 1
      ensures old(alloc.IsExact()) ==> alloc.IsExact()
      ensures r.None? ==> alloc.live == old(alloc.live) && vol.blocks == old(vol.blocks)
      ensures RestSame(alloc, old(vol.blocks), vol.blocks)
      ensures forall b: nat :: b >= alloc.regionStart ==> BlockAt(vol.blocks, b) == old(BlockAt(vol.blocks, b))
    {
      hide MapBits, BitsOf, Safe, Get, Exact, Allocator.Room;
      var block := alloc.GetBlock();
      r := if block.Some? then Some(block.value) else None;
    }

    /** Zero a block that no file holds and write the map that now refers to it. */
    method Install(block: nat, current: nat, m: BlockMap, ghost live: set<nat>, ghost maps: seq<nat>)
      requires Mounted() && block >= alloc.regionStart && current >= alloc.regionStart
      requires block - alloc.regionStart !in live && current in maps
      modifies vol`blocks
      ensures Mounted() && vol.blocks == old(vol.blocks)[block := Zeros(BLOCK_SIZE)][current := Encode(m)]
      ensures RestSame(alloc, old(vol.blocks), vol.blocks)
      ensures KeptBlocks(old(vol.blocks), vol.blocks, alloc.regionStart, live, maps)
      ensures MapAt(vol.blocks, current) == m
    {
      hide Mounted, Encode, Decode;
      WriteBlock(block, Zeros(BLOCK_SIZE));
      WriteBlock(current, Encode(m));
      DecodeEncode(m);
    }

    /** Link an empty map behind the last one, which is full. */
    method AddOneBmapBlock(current: nat, bmap: BlockMap) returns (ok: bool, bmap': BlockMap)
      requires Linked() && |rep.blks| == BMAP_BLOCKS * |rep.maps|
      requires current == rep.maps[|rep.maps| - 1] && bmap == MapAt(vol.blocks, current)
      modifies alloc, alloc.window, vol`blocks, this`rep
      ensures (!ok ==> alloc.Room() == 0) && Spent(old(Stock()), old(alloc.IsExact()))
      ensures Linked() && old(alloc.live) <= alloc.live
      ensures !ok ==> rep == old(rep)
      ensures ok ==>
                && rep == Rep(old(rep.maps) + [bmap'.next], old(rep.blks))
                && bmap' == bmap.(next := bmap'.next)
      ensures OursOrFresh(rep.maps, alloc.regionStart, old(alloc.live), old(rep.maps))
      ensures LiveFor(alloc.regionStart, old(alloc.live), alloc.live, BlocksOf(rep))
      ensures RestSame(alloc, old(vol.blocks), vol.blocks)
      ensures KeptBlocks(old(vol.blocks), vol.blocks, alloc.regionStart, old(alloc.live), old(rep.maps))
    {
      hide Allocator.Room, Allocator.IsExact, Chain, Mounted, MapAt;
      bmap' := bmap;
      ChainEnds(vol.blocks, inode.next, rep);
      var block := GetDataBlock();
      ChainFrame(old(vol.blocks), vol.blocks, inode.next, rep);
      if block.None? {
        return false, bmap';
      }
      MapFrame(old(vol.blocks), vol.blocks, current);
      AppendMap(vol.blocks, inode.next, rep, block.value);
      bmap' := bmap.(next := block.value);
      ghost var d1 := vol.blocks;
      Install(block.value, current, bmap', old(alloc.live), rep.maps);
      RestThrough(alloc, old(vol.blocks), d1, vol.blocks);
      rep := Rep(rep.maps + [block.value], rep.blks);
      assert forall b :: b in rep.maps ==> b in old(rep.maps) || b == block.value;
      ok := true;
    }

    /** Put a zeroed data block into the first empty slot of the chain. */
    method AddOneDataBlock(current: nat, bmap: BlockMap, iblock: nat) returns (ok: bool, bmap': BlockMap)
      requires Linked() && |rep.blks| < BMAP_BLOCKS * |rep.maps| && iblock == |rep.blks| % BMAP_BLOCKS
      requires current == rep.maps[|rep.maps| - 1] && bmap == MapAt(vol.blocks, current)
      modifies alloc, alloc.window, vol`blocks, this`rep
      ensures (!ok ==> alloc.Room() == 0) && Spent(old(Stock()), old(alloc.IsExact()))
      ensures Linked() && old(alloc.live) <= alloc.live
      ensures !ok ==> rep == old(rep)
      ensures ok ==>
                && rep == Rep(old(rep.maps), old(rep.blks) + [bmap'.blocks[iblock]])
                && bmap' == MapAt(vol.blocks, current)
      ensures OursOrFresh(rep.blks, alloc.regionStart, old(alloc.live), old(rep.blks))
      ensures LiveFor(alloc.regionStart, old(alloc.live), alloc.live, BlocksOf(rep))
      ensures RestSame(alloc, old(vol.blocks), vol.blocks)
      ensures KeptBlocks(old(vol.blocks), vol.blocks, alloc.regionStart, old(alloc.live), old(rep.maps))
    {
      hide Allocator.Valid, Allocator.Room, Allocator.IsExact, Chain, Mounted, MapAt;
      bmap' := bmap;
      ChainEnds(vol.blocks, inode.next, rep);
      var block := GetDataBlock();
      ChainFrame(old(vol.blocks), vol.blocks, inode.next, rep);
      if block.None? {
        return false, bmap';
      }
      MapFrame(old(vol.blocks), vol.blocks, current);
      AppendBlock(vol.blocks, inode.next, rep, block.value, Zeros(BLOCK_SIZE));
      bmap' := bmap.(blocks := bmap.blocks[iblock := block.value]);
      ghost var d1 := vol.blocks;
      Install(block.value, current, bmap', old(alloc.live), rep.maps);
      RestThrough(alloc, old(vol.blocks), d1, vol.blocks);
      rep := Rep(rep.maps, rep.blks + [block.value]);
      assert forall b :: b in rep.blks ==> b in old(rep.blks) || b == block.value;
      ok := true;
    }

    /** At the end of a map go to the next one, adding it if there is none. */
    method NextMap(bmap: BlockMap, current: nat, ghost q: nat) returns (ok: bool, bmap': BlockMap, current': nat)
      requires Linked() && At(q, bmap, current, BMAP_BLOCKS - 1)
      modifies alloc, alloc.window, vol`blocks, this`rep
      ensures (!ok ==> alloc.Room() == 0) && Spent(old(Stock()), old(alloc.IsExact()))
      ensures !ok ==> |rep.blks| == q + 1
      ensures Linked() && old(alloc.live) <= alloc.live
      ensures old(rep.maps) <= rep.maps && rep.blks == old(rep.blks)
      ensures OursOrFresh(rep.maps, alloc.regionStart, old(alloc.live), old(rep.maps))
      ensures LiveFor(alloc.regionStart, old(alloc.live), alloc.live, BlocksOf(rep))
      ensures ok ==>
                && (q + 1) / BMAP_BLOCKS < |rep.maps|
                && current' == rep.maps[(q + 1) / BMAP_BLOCKS]
                && bmap' == MapAt(vol.blocks, current')
      ensures q + 1 < |rep.blks| ==>
                ok && rep == old(rep) && vol.blocks == old(vol.blocks) && alloc.live == old(alloc.live)
      ensures RestSame(alloc, old(vol.blocks), vol.blocks)
      ensures KeptBlocks(old(vol.blocks), vol.blocks, alloc.regionStart, old(alloc.live), old(rep.maps))
    {
      ok, bmap', current' := true, bmap, current;
      LinkOf(vol.blocks, inode.next, rep, q / BMAP_BLOCKS);
      StepPosition(q);
      if bmap'.next == INODE_NULL {
        LastMapIsFull(rep, q);
        ok, bmap' := AddOneBmapBlock(current', bmap');
        if !ok {
          return;
        }
      }
      current' := bmap'.next;
      bmap' := vol.MapRead(current');
    }

    /** Take the data block in slot `iblock` of the current map, adding it if there is none. */
    method FillSlot(bmap: BlockMap, current: nat, iblock: nat, ghost k: nat)
      returns (ok: bool, bmap': BlockMap, start: nat)
      requires Linked() && k <= |rep.blks| && k / BMAP_BLOCKS < |rep.maps|
      requires current == rep.maps[k / BMAP_BLOCKS] && iblock == k % BMAP_BLOCKS && bmap == MapAt(vol.blocks, current)
      modifies alloc, alloc.window, vol`blocks, this`rep
      ensures (!ok ==> alloc.Room() == 0) && Spent(old(Stock()), old(alloc.IsExact()))
      ensures if ok then rep == old(rep) || (|rep.blks| == k + 1 && |rep.maps| == k / BMAP_BLOCKS + 1)
              else |rep.blks| == k
      ensures Linked() && old(alloc.live) <= alloc.live
      ensures rep.maps == old(rep.maps) && old(rep.blks) <= rep.blks
      ensures OursOrFresh(rep.blks, alloc.regionStart, old(alloc.live), old(rep.blks))
      ensures LiveFor(alloc.regionStart, old(alloc.live), alloc.live, BlocksOf(rep))
      ensures ok ==> At(k, bmap', current, iblock) && start == rep.blks[k]
      ensures k < old(|rep.blks|) ==>
                ok && rep == old(rep) && vol.blocks == old(vol.blocks) && alloc.live == old(alloc.live)
      ensures RestSame(alloc, old(vol.blocks), vol.blocks)
      ensures KeptBlocks(old(vol.blocks), vol.blocks, alloc.regionStart, old(alloc.live), old(rep.maps))
    {
      ok, bmap', start := true, bmap, bmap.blocks[iblock];
      if k < |rep.blks| {
        SlotOf(vol.blocks, inode.next, rep, k);
        assert rep.blks[k] in rep.blks;
      } else {
        NextSlot(rep, k);
        EmptySlot(vol.blocks, inode.next, rep, k / BMAP_BLOCKS, iblock);
      }
      if start == INODE_NULL {
        ok, bmap' := AddOneDataBlock(current, bmap', iblock);
        if !ok {
          return;
        }
      }
      start := bmap'.blocks[iblock];
    }

    /** Step from block `q` of the file to the next one, growing the chain when it ends. */
    method NextBlock(bmap: BlockMap, current: nat, iblock: nat, ghost q: nat)
      returns (ok: bool, bmap': BlockMap, current': nat, iblock': nat, start: nat, dptr: Block)
      requires Linked() && At(q, bmap, current, iblock)
      modifies alloc, alloc.window, vol`blocks, this`rep
      ensures (!ok ==> alloc.Room() == 0) && Spent(old(Stock()), old(alloc.IsExact()))
      ensures if ok then |BlocksOf(rep)| == Max(old(|BlocksOf(rep)|), BlocksFor(q + 2)) else |rep.blks| == q + 1
      ensures Linked() && old(alloc.live) <= alloc.live
      ensures old(rep.maps) <= rep.maps && old(rep.blks) <= rep.blks
      ensures OursOrFresh(rep.maps, alloc.regionStart, old(alloc.live), old(rep.maps))
      ensures OursOrFresh(rep.blks, alloc.regionStart, old(alloc.live), old(rep.blks))
      ensures LiveFor(alloc.regionStart, old(alloc.live), alloc.live, BlocksOf(rep))
      ensures ok ==> At(q + 1, bmap', current', iblock')
      ensures ok ==> start == rep.blks[q + 1] && dptr == BlockAt(vol.blocks, start)
      ensures q + 1 < old(|rep.blks|) ==>
                ok && rep == old(rep) && vol.blocks == old(vol.blocks) && alloc.live == old(alloc.live)
      ensures RestSame(alloc, old(vol.blocks), vol.blocks)
      ensures KeptBlocks(old(vol.blocks), vol.blocks, alloc.regionStart, old(alloc.live), old(rep.maps))
    {
      hide Allocator.Room, Allocator.IsExact, Mounted, Chain, MapAt, RestSame;
      ok, bmap', current', iblock', start, dptr := true, bmap, current, (iblock + 1) % BMAP_BLOCKS, 0,
        Zeros(BLOCK_SIZE);
      StepPosition(q);
      if iblock' == 0 {
        ok, bmap', current' := NextMap(bmap', current', q);
        if !ok {
          return;
        }
      }
      ghost var d1 := vol.blocks;
      ok, bmap', start := FillSlot(bmap', current', iblock', q + 1);
      RestThrough(alloc, old(vol.blocks), d1, vol.blocks);
      if ok {
        dptr := vol.BlockRead(start);
      }
    }

    /** Write the buffer back to data block `q`, which keeps the chain and shows the buffer. */
    method FlushBlock(start: nat, dptr: Block, ghost q: nat)
      requires Linked() && q < |rep.blks| && start == rep.blks[q]
      modifies vol`blocks
      ensures Linked() && vol.blocks == old(vol.blocks)[start := dptr]
      ensures RestSame(alloc, old(vol.blocks), vol.blocks)
      ensures forall b :: b in rep.maps ==> BlockAt(vol.blocks, b) == old(BlockAt(vol.blocks, b))
    {
      assert start in rep.blks;
      WriteBlock(start, dptr);
      assert forall b :: b in rep.maps ==> b != start;
      ChainFrame(old(vol.blocks), vol.blocks, inode.next, rep);
    }

    /** The walk stands on block `q`; with its buffer written, the disk holds the bytes `want`. */
    ghost predicate Buffered(q: nat, w: Walk, want: seq<bv8>)
      reads this, alloc, vol`blocks, alloc.window
    {
      && Linked() && At(q, w.bmap, w.current, w.iblock) && w.start == rep.blks[q]
      && |want| <= BLOCK_SIZE * |rep.blks|
      && HoldsBytes(vol.blocks[w.start := w.dptr], rep.blks, want)
    }

    /** This file grew, from disk `d0` with chain `rep0` to now. */
    ghost predicate GrownSince(d0: Disk, live0: set<nat>, rep0: Rep)
      reads this`rep, alloc`live, vol`blocks
    {
      Grown(alloc, d0, vol.blocks, live0, alloc.live, rep0, rep)
    }

    lemma GrownStart()
      ensures GrownSince(vol.blocks, alloc.live, rep)
    {
    }

    /** The inode, in memory and on disk, is still that of the file `id`; no other changed. */
    ghost predicate SameFile(inodes0: Inodes, id: InodeRecord)
      reads this`inode, vol`inodes
    {
      Identity(inode) == id && InodesKept(inodes0, vol.inodes, id)
    }

    ghost function Now(): Start
      reads this`inode, this`rep, alloc, vol
    {
      Start(vol.blocks, alloc.live, rep, vol.inodes, Identity(inode), Stock(), alloc.IsExact())
    }

    /** This file came from `s` to where it is, and nothing else changed. */
    ghost predicate Since(s: Start)
      reads this`inode, this`rep, alloc, vol, alloc.window
    {
      Mounted() && Led(alloc, s, Now())
    }

    lemma SinceStart()
      requires Valid()
      ensures Since(Now()) && Now().stock == Stock()
    {
    }

    lemma SinceThen(s: Start)
      requires Since(s)
      ensures Led(alloc, s, Now()) && Stock() == s.stock && Now().stock == Stock() && Mounted()
    {
    }

    /** One part of a call after another. */
    lemma SinceTwice(s: Start, mid: Start)
      requires Led(alloc, s, mid) && Since(mid)
      ensures Since(s) && Stock() == mid.stock
    {
      LedTwice(alloc, s, mid, Now());
    }

    /** Writing its inode leaves the file the same. */
    lemma SinceInode(s: Start, mid: Start)
      requires Mounted() && Led(alloc, s, mid) && Now() == mid.(inodes := vol.inodes)
      requires InodesKept(mid.inodes, vol.inodes, mid.id)
      ensures Since(s)
    {
      hide Grown, InodesKept;
      InodesTwice(s.inodes, mid.inodes, vol.inodes, s.id);
    }

    lemma SinceParts(s: Start)
      requires Since(s)
      ensures Mounted() && GrownSince(s.disk, s.live, s.rep) && SameFile(s.inodes, s.id)
      ensures Stock() == s.stock && (s.exact ==> alloc.IsExact())
    {
    }

    lemma NowIs()
      ensures Now().disk == vol.blocks && Now().live == alloc.live && Now().rep == rep && Now().inodes == vol.inodes
      ensures Now().id == Identity(inode) && Now().stock == Stock() && Now().exact == alloc.IsExact()
    {
    }

    lemma SinceBy(s: Start)
      requires Mounted() && GrownSince(s.disk, s.live, s.rep) && Spent(s.stock, s.exact) && SameFile(s.inodes, s.id)
      ensures Since(s)
    {
    }

    lemma LinkedIsMounted()
      requires Linked()
      ensures Mounted()
    {
    }

    lemma GrownPrefix(d0: Disk, live0: set<nat>, rep0: Rep)
      requires GrownSince(d0, live0, rep0)
      ensures rep0.maps <= rep.maps && rep0.blks <= rep.blks
    {
    }

    ghost predicate UntouchedSince(d0: Disk, live0: set<nat>, rep0: Rep)
      reads this`rep, alloc`live, vol`blocks
    {
      rep == rep0 && alloc.live == live0 && SameBlocks(d0, vol.blocks)
    }

    /** Move one byte between the buffer and the caller's data. */
    method StepByte(processed: nat, byte: nat, data: array<bv8>, reading: bool, start: nat, dptr: Block,
                    ghost q: nat, ghost off: nat, ghost want: seq<bv8>)
      returns (dptr': Block, ghost want': seq<bv8>)
      requires q < |rep.blks| && NoDup(rep.blks) && start == rep.blks[q]
      requires off + processed == BLOCK_SIZE * q + byte && byte < BLOCK_SIZE && processed < data.Length
      requires HoldsBytes(vol.blocks[start := dptr], rep.blks, want) && inode.size == |contents|
      requires if reading then want == contents else off + processed <= |want|
      modifies data
      ensures HoldsBytes(vol.blocks[start := dptr'], rep.blks, want')
      ensures reading ==> want' == want && (processed < inode.size ==> dptr' == dptr)
      ensures reading ==> forall k :: 0 <= k < data.Length && k != processed ==> data[k] == old(data[k])
      ensures reading && off + processed < |contents| ==> data[processed] == contents[off + processed]
      ensures !reading ==> data[..] == old(data[..]) && want' == Put(want, off + processed, data[processed])
    {
      dptr', want' := dptr, want;
      if reading {
        assert BlockHolds(BlockAt(vol.blocks[start := dptr], rep.blks[q]), want, BLOCK_SIZE * q);
        if processed >= inode.size {
          BytesPast(vol.blocks, rep.blks, q, dptr, want, byte, 0);
          data[processed] := 0;
          dptr' := dptr[byte := 0];
        } else {
          data[processed] := dptr[byte];
        }
      } else {
        BytesPut(vol.blocks, rep.blks, q, dptr, want, byte, data[processed]);
        dptr' := dptr[byte := data[processed]];
        want' := Put(want, off + processed, data[processed]);
      }
    }

    /** At the end of a block write it back if asked to and load the next one. */
    method Advance(w: Walk, flush: bool, ghost q: nat, ghost want: seq<bv8>,
                   ghost d0: Disk, ghost live0: set<nat>, ghost rep0: Rep)
      returns (ok: bool, w': Walk)
      requires Buffered(q, w, want) && GrownSince(d0, live0, rep0)
      requires !flush ==> HoldsBytes(vol.blocks, rep.blks, want)
      modifies alloc, alloc.window, vol`blocks, this`rep
      ensures (!ok ==> alloc.Room() == 0) && Spent(old(Stock()), old(alloc.IsExact()))
      ensures if ok then |BlocksOf(rep)| == Max(old(|BlocksOf(rep)|), BlocksFor(q + 2)) else |rep.blks| == q + 1
      ensures Linked() && |want| <= BLOCK_SIZE * |rep.blks| && HoldsBytes(vol.blocks, rep.blks, want)
      ensures GrownSince(d0, live0, rep0)
      ensures old(|rep.blks|) <= |rep.blks|
      ensures ok ==> Buffered(q + 1, w', want) && w'.dptr == BlockAt(vol.blocks, w'.start)
      ensures q + 1 < old(|rep.blks|) ==>
                && ok && rep == old(rep) && alloc.live == old(alloc.live)
                && vol.blocks == if flush then old(vol.blocks)[w.start := w.dptr] else old(vol.blocks)
    {
      hide Allocator.Room, Allocator.IsExact, Mounted, HoldsBytes, Grown;
      if flush {
        FlushBlock(w.start, w.dptr, q);
        FlushGrows(old(vol.blocks), d0, live0, rep0, w.start, w.dptr);
      }
      assert w.start in rep.blks && w.current in rep.maps;
      ghost var d1, rep1, live1 := vol.blocks, rep, alloc.live;
      var bmap, current, iblock, start, dptr;
      ok, bmap, current, iblock, start, dptr := NextBlock(w.bmap, w.current, w.iblock, q);
      BytesFrame(d1, vol.blocks, rep1.blks, want);
      BytesGrow(vol.blocks, rep1.blks, rep.blks, want);
      StepGrows(alloc, d1, vol.blocks, live1, alloc.live, rep1, rep);
      GrownTwice(alloc, d0, d1, vol.blocks, live0, live1, alloc.live, rep0, rep1, rep);
      w' := Walk(bmap, current, iblock, start, dptr);
      if ok {
        BytesFrame(vol.blocks, vol.blocks[start := dptr], rep.blks, want);
      }
    }

    /** Writing a data block of the file is growth by nothing. */
    lemma FlushGrows(d1: Disk, d0: Disk, live0: set<nat>, rep0: Rep, start: nat, dptr: Block)
      requires Linked() && Grown(alloc, d0, d1, live0, alloc.live, rep0, rep) && start in rep.blks
      requires vol.blocks == d1[start := dptr]
      ensures GrownSince(d0, live0, rep0)
    {
      hide Chain;
      assert start in BlocksOf(rep);
      assert forall b :: b in rep.blks ==> b in BlocksOf(rep);
    }

    /** After `processed` bytes from byte `off` on: what the walk, the disk and `data` hold. */
    ghost predicate Progress(off: nat, processed: nat, byte: nat, q: nat, w: Walk, writeFlag: bool,
                             want: seq<bv8>, payload: seq<bv8>, reading: bool, data: array<bv8>)
      reads this, alloc, vol`blocks, alloc.window, data
    {
      && processed <= |payload| <= data.Length && off <= |contents| == inode.size
      && |contents| < BLOCK_SIZE * |rep.blks|
      && off + processed == BLOCK_SIZE * q + byte && byte <= BLOCK_SIZE
      && Buffered(q, w, want)
      && (!writeFlag ==> HoldsBytes(vol.blocks, rep.blks, want))
      && if reading then
           && want == contents && !writeFlag
           && forall k :: 0 <= k < processed && off + k < |contents| ==> data[k] == contents[off + k]
         else
           want == Splice(contents, off, payload[..processed]) && data[..|payload|] == payload
    }

    /** Lines 453-467: one more byte is through, without looking at the end of the block. */
    method MoveByte(processed: nat, byte: nat, data: array<bv8>, reading: bool, w: Walk, writeFlag: bool,
                    ghost q: nat, ghost off: nat, ghost want: seq<bv8>, ghost payload: seq<bv8>)
      returns (w': Walk, writeFlag': bool, ghost want': seq<bv8>)
      requires Progress(off, processed, byte, q, w, writeFlag, want, payload, reading, data)
      requires processed < |payload| && byte < BLOCK_SIZE && data != alloc.window
      modifies data
      ensures Progress(off, processed + 1, byte + 1, q, w', writeFlag', want', payload, reading, data)
      ensures !reading ==> data[..] == old(data[..])
      ensures reading && processed < inode.size ==> w' == w
      ensures w'.start == w.start
    {
      var dptr;
      dptr, want' := StepByte(processed, byte, data, reading, w.start, w.dptr, q, off, want);
      w', writeFlag' := w.(dptr := dptr), writeFlag;
      if !reading {
        writeFlag' := true;
        SplicePut(contents, off, payload, processed);
      }
    }

    /** Lines 467-525: when the block is full, write it back and step to the next one. */
    method EndOfBlock(processed: nat, byte: nat, data: array<bv8>, reading: bool, w: Walk, writeFlag: bool,
                      ghost q: nat, ghost off: nat, ghost want: seq<bv8>, ghost payload: seq<bv8>,
                      ghost d0: Disk, ghost live0: set<nat>, ghost rep0: Rep)
      returns (ok: bool, byte': nat, w': Walk, writeFlag': bool, ghost q': nat)
      requires Progress(off, processed, byte, q, w, writeFlag, want, payload, reading, data)
      requires byte > 0 && GrownSince(d0, live0, rep0) && data != alloc.window
      modifies alloc, alloc.window, vol`blocks, this`rep
      ensures (!ok ==> alloc.Room() == 0) && Spent(old(Stock()), old(alloc.IsExact()))
      ensures if ok then |BlocksOf(rep)| == Max(old(|BlocksOf(rep)|), BlocksFor(q' + 1))
              else off + processed == BLOCK_SIZE * |rep.blks|
      ensures GrownSince(d0, live0, rep0) && byte' < BLOCK_SIZE
      ensures ok ==> q <= q'
      ensures ok ==> Progress(off, processed, byte', q', w', writeFlag', want, payload, reading, data)
      ensures !ok ==> Linked() && HoldsBytes(vol.blocks, rep.blks, want) && |contents| < BLOCK_SIZE * |rep.blks|
      ensures off + processed <= |contents| ==> ok && rep == old(rep) && alloc.live == old(alloc.live)
      ensures reading && off + processed <= |contents| && w.dptr == old(BlockAt(vol.blocks, w.start)) ==>
                && ok && rep == old(rep) && alloc.live == old(alloc.live) && SameBlocks(old(vol.blocks), vol.blocks)
                && w'.dptr == BlockAt(vol.blocks, w'.start)
    {
      hide Allocator.Room, Allocator.IsExact, Linked, Mounted, HoldsBytes, Grown;
      WrapByte(byte);
      ok, byte', w', writeFlag', q' := true, byte % BLOCK_SIZE, w, writeFlag, q;
      if byte' == 0 {
        var flush := !reading || processed >= inode.size;
        SameAfterRewrite(vol.blocks, w.start);
        ok, w' := Advance(w, flush, q, want, d0, live0, rep0);
        if flush {
          writeFlag' := false;
        }
        q' := q + 1;
      }
    }

    /** One round of the loop: a byte, and the end of the block if it is reached. */
    method OneByte(processed: nat, byte: nat, data: array<bv8>, reading: bool, w: Walk, writeFlag: bool,
                   ghost q: nat, ghost off: nat, ghost want: seq<bv8>, ghost payload: seq<bv8>,
                   ghost d0: Disk, ghost live0: set<nat>, ghost rep0: Rep)
      returns (ok: bool, byte': nat, w': Walk, writeFlag': bool, ghost q': nat, ghost want': seq<bv8>)
      requires Progress(off, processed, byte, q, w, writeFlag, want, payload, reading, data)
      requires processed < |payload| && byte < BLOCK_SIZE && GrownSince(d0, live0, rep0) && data != alloc.window
      modifies alloc, alloc.window, vol`blocks, this`rep, data
      ensures (!ok ==> alloc.Room() == 0) && Spent(old(Stock()), old(alloc.IsExact()))
      ensures if ok then |BlocksOf(rep)| == Max(old(|BlocksOf(rep)|), BlocksFor(q' + 1))
              else off + processed + 1 == BLOCK_SIZE * |rep.blks|
      ensures GrownSince(d0, live0, rep0) && byte' < BLOCK_SIZE
      ensures !reading ==> data[..] == old(data[..])
      ensures ok ==> q <= q'
      ensures ok ==> Progress(off, processed + 1, byte', q', w', writeFlag', want', payload, reading, data)
      ensures !ok ==> Linked() && HoldsBytes(vol.blocks, rep.blks, want') && |contents| < BLOCK_SIZE * |rep.blks|
      ensures !ok ==> want' == AfterTransfer(contents, off, payload[..processed + 1], reading)
      ensures !ok && reading ==>
                forall k :: 0 <= k < processed + 1 && off + k < |contents| ==> data[k] == contents[off + k]
      ensures off + processed < |contents| ==> ok && rep == old(rep) && alloc.live == old(alloc.live)
      ensures reading && off + processed < |contents| && w.dptr == old(BlockAt(vol.blocks, w.start)) ==>
                ok && SameBlocks(old(vol.blocks), vol.blocks) && w'.dptr == BlockAt(vol.blocks, w'.start)
    {
      hide Allocator.Room, Allocator.IsExact, Linked, Mounted, HoldsBytes, Grown, Buffered;
      w', writeFlag', want' := MoveByte(processed, byte, data, reading, w, writeFlag, q, off, want, payload);
      ok, byte', w', writeFlag', q' :=
        EndOfBlock(processed + 1, byte + 1, data, reading, w', writeFlag', q, off, want', payload, d0, live0, rep0);
    }

    /** Lines 527-538: write back what the last block still holds. */
    method FinishTransfer(processed: nat, data: array<bv8>, reading: bool, w: Walk, writeFlag: bool, byte: nat,
                          ghost q: nat, ghost off: nat, ghost want: seq<bv8>, ghost payload: seq<bv8>,
                          ghost d0: Disk, ghost live0: set<nat>, ghost rep0: Rep)
      requires Progress(off, processed, byte, q, w, writeFlag, want, payload, reading, data)
      requires byte < BLOCK_SIZE && processed == |payload| && GrownSince(d0, live0, rep0) && data != alloc.window
      modifies vol`blocks
      ensures Linked() && GrownSince(d0, live0, rep0) && HoldsBytes(vol.blocks, rep.blks, want)
      ensures q == (off + processed) / BLOCK_SIZE && At(q, MapAt(vol.blocks, w.current), w.current, w.iblock)
      ensures w.start == rep.blks[q]
      ensures !writeFlag ==> vol.blocks == old(vol.blocks)
    {
      assert w.start in rep.blks;
      if writeFlag {
        FlushBlock(w.start, w.dptr, q);
      }
    }

    /** The block the walk stands on is one of the file. */
    lemma HeldSoFar(q: nat)
      requires Linked() && q < |rep.blks|
      ensures |BlocksOf(rep)| == Max(|BlocksOf(rep)|, BlocksFor(q + 1))
    {
      hide Chain;
      ShapeOf(vol.blocks, inode.next, rep);
      RepCounts(rep);
      DatasReach(|BlocksOf(rep)|, q + 1);
    }

    /** A transfer up to byte `end` succeeds exactly when the data blocks the file has or can get
        reach past it; if not, it ends with the last of them. */
    lemma Outcome(ok: bool, s0: nat, end: nat, stop: nat)
      requires Linked()
      requires if ok then |BlocksOf(rep)| == Max(s0, BlocksFor(end / BLOCK_SIZE + 1))
               else alloc.Room() == 0 && stop == BLOCK_SIZE * |rep.blks| && stop <= end
      ensures ok <==> end < Capacity(Stock())
      ensures !ok ==> stop == Capacity(Stock())
    {
      hide Chain, Allocator.Room;
      ShapeOf(vol.blocks, inode.next, rep);
      RepCounts(rep);
      DatasReach(|BlocksOf(rep)|, end / BLOCK_SIZE + 1);
      DatasReach(Stock(), end / BLOCK_SIZE + 1);
    }

    lemma AtStart(off: nat, length: nat, data: array<bv8>, reading: bool, w: Walk)
      requires Buffered(off / BLOCK_SIZE, w, contents) && w.dptr == BlockAt(vol.blocks, w.start)
      requires inode.size == |contents| && off <= |contents| < BLOCK_SIZE * |rep.blks| && length <= data.Length
      ensures Progress(off, 0, off % BLOCK_SIZE, off / BLOCK_SIZE, w, false, contents, data[..length], reading, data)
      ensures |BlocksOf(rep)| == Max(|BlocksOf(rep)|, BlocksFor(off / BLOCK_SIZE + 1))
    {
      hide Linked, HoldsBytes, BlocksFor, Max;
      HeldSoFar(off / BLOCK_SIZE);
      BytesFrame(vol.blocks[w.start := w.dptr], vol.blocks, rep.blks, contents);
      assert Splice(contents, off, data[..length][..0]) == contents;
    }

    /** The byte loop of file_read_write, from byte `off` of the file on. It fails only at
        the end of a block, after writing that block. */
    method Transfer(ghost off: nat, byte0: nat, length: nat, data: array<bv8>, reading: bool, w0: Walk)
      returns (ok: bool, processed: nat, w: Walk, ghost q: nat)
      requires Buffered(off / BLOCK_SIZE, w0, contents) && w0.dptr == BlockAt(vol.blocks, w0.start)
      requires inode.size == |contents| && off <= |contents| < BLOCK_SIZE * |rep.blks|
      requires byte0 == off % BLOCK_SIZE && 0 < length <= data.Length && data != alloc.window
      modifies alloc, alloc.window, vol`blocks, this`rep, data
      ensures (!ok ==> alloc.Room() == 0) && Spent(old(Stock()), old(alloc.IsExact()))
      ensures if ok then |BlocksOf(rep)| == Max(old(|BlocksOf(rep)|), BlocksFor((off + length) / BLOCK_SIZE + 1))
              else off + processed == Capacity(old(Stock()))
      ensures ok <==> off + length < Capacity(old(Stock()))
      ensures Linked() && 0 < processed <= length && |contents| < BLOCK_SIZE * |rep.blks|
      ensures GrownSince(old(vol.blocks), old(alloc.live), old(rep))
      ensures ok ==> processed == length
      ensures ok ==> q == (off + length) / BLOCK_SIZE
      ensures ok ==> At(q, MapAt(vol.blocks, w.current), w.current, w.iblock) && w.start == rep.blks[q]
      ensures !reading ==> data[..] == old(data[..])
      ensures HoldsBytes(vol.blocks, rep.blks, AfterTransfer(contents, off, old(data[..processed]), reading))
      ensures reading ==> forall k :: 0 <= k < processed && off + k < |contents| ==> data[k] == contents[off + k]
      ensures off + length <= |contents| ==> ok && rep == old(rep) && alloc.live == old(alloc.live)
      ensures reading && off + length <= |contents| ==>
                ok && UntouchedSince(old(vol.blocks), old(alloc.live), old(rep))
    {
      hide Chain, Allocator.Valid, BlockAt, MapAt, CursorIn, Led, Now, Since, BlocksOf, Allocator.Room,
        Allocator.IsExact, Linked, Mounted, HoldsBytes, Grown, At, Splice, Buffered, BlocksFor, Max, Stock, Capacity;
      ghost var all, payload, inside := data[..], data[..length], reading && off + length <= |contents|;
      ghost var d0, live0, rep0 := vol.blocks, alloc.live, rep;
      ghost var want := contents;
      var byte: nat, left: nat, writeFlag := byte0, length, false;
      ok, processed, w, q := true, 0, w0, off / BLOCK_SIZE;
      AtStart(off, length, data, reading, w);
      GrownStart();
      while left > 0
        invariant processed + left == length && byte < BLOCK_SIZE
        invariant Progress(off, processed, byte, q, w, writeFlag, want, payload, reading, data)
        invariant !reading ==> data[..] == all
        invariant Spent(old(Stock()), old(alloc.IsExact()))
        invariant |BlocksOf(rep)| == Max(|BlocksOf(rep0)|, BlocksFor(q + 1))
        invariant off + length <= |contents| ==> rep == rep0 && alloc.live == live0
        invariant inside ==> UntouchedSince(d0, live0, rep0) && w.dptr == BlockAt(vol.blocks, w.start)
        invariant GrownSince(d0, live0, rep0)
        decreases left
      {
        ghost var d1, p := vol.blocks, q;
        ok, byte, w, writeFlag, q, want :=
          OneByte(processed, byte, data, reading, w, writeFlag, q, off, want, payload, d0, live0, rep0);
        processed, left := processed + 1, left - 1;
        assert payload[..processed] == all[..processed];
        if !ok {
          Outcome(false, 0, off + length, off + processed);
          return;
        }
        MaxStep(|BlocksOf(rep0)|, p + 1, q + 1);
        if inside {
          SameThrough(d0, d1, vol.blocks);
          assert UntouchedSince(d0, live0, rep0);
        }
      }
      assert payload[..processed] == all[..processed];
      FinishTransfer(processed, data, reading, w, writeFlag, byte, q, off, want, payload, d0, live0, rep0);
      Outcome(true, |BlocksOf(rep0)|, off + length, off + length);
    }

    /** No cursor: the file was just opened or its position was set by klseek. */
    predicate Loose()
      reads this`inode
    {
      inode.current == INODE_NULL || inode.iblock == INODE_NOPOS
    }

    /** block_t has 32 bits: no block index or scan count for a byte of the file wraps. */
    lemma CountsFitWord(pos: nat)
      requires Valid() && inode.next != INODE_NULL && pos <= inode.size
      ensures pos / BLOCK_SIZE < |rep.blks| <= BITS * alloc.Size() && |rep.blks| + alloc.regionStart <= WORD_LIMIT
      ensures ScanCount(pos) <= |rep.maps| < WORD_LIMIT
    {
      forall b | b in rep.blks ensures alloc.regionStart <= b < alloc.regionStart + BITS * alloc.Size() {
        assert alloc.IsLive(b);
      }
      DistinctFit(rep.blks, Interval(alloc.regionStart, BITS * alloc.Size()));
      PositionFits(pos, |rep.blks|);
      ScanFits(rep, pos);
    }

    /** file_read_write has no cursor for `pos` and walks the chain from its head. */
    ghost predicate Scans(pos: nat)
      reads this`inode
    {
      && inode.next != INODE_NULL
      && !(inode.pos == 0 && inode.current == INODE_NULL)
      && !(inode.pos == pos && inode.current != INODE_NULL && inode.iblock != INODE_NOPOS)
    }

    /** That walk ends one map short: at positive multiples of 65024. */
    ghost predicate Misses(pos: nat)
      reads this`inode
    {
      Scans(pos) && pos > 0 && pos % MAP_BYTES == 0
    }

    /** The byte of the file that file_read_write starts from when asked for `pos`. */
    ghost function Landing(pos: nat): (off: nat)
      reads this`inode
      ensures off <= pos && off % BLOCK_SIZE == pos % BLOCK_SIZE
    {
      if Misses(pos) then pos - MAP_BYTES else pos
    }

    lemma LandsThere(pos: nat)
      ensures !Misses(pos) <==> Landing(pos) == pos
    {
    }

    /** Callers pass the file position, or the size while they fill a gap before it. */
    ghost predicate StartsAt(pos: nat)
      reads this`inode
    {
      pos <= inode.size && (pos == inode.pos || inode.pos > inode.size)
    }

    /** Give an inode without blocks an empty map. */
    method FirstMap() returns (ok: bool)
      requires Valid() && inode.next == INODE_NULL
      modifies this`inode, this`rep, alloc, alloc.window, vol
      ensures (!ok ==> alloc.Room() == 0) && Spent(old(Stock()), old(alloc.IsExact()))
      ensures ok <==> old(alloc.Room()) > 0
      ensures GrownSince(old(vol.blocks), old(alloc.live), old(rep))
      ensures inode == old(inode).(next := inode.next)
      ensures ok ==>
                && inode.next != INODE_NULL && Linked() && rep == Rep([inode.next], [])
                && MapAt(vol.blocks, inode.next) == EMPTY_MAP && vol.inodes == old(vol.inodes)[inode.self := inode]
      ensures !ok ==> Valid() && inode.next == INODE_NULL && vol.inodes == old(vol.inodes)
    {
      hide Allocator.Room, Allocator.IsExact, Mounted, Chain, MapAt, RestSame, Grown;
      var first := GetDataBlock();
      if first.None? {
        GrownStart();
        return false;
      }
      ghost var d1 := vol.blocks;
      inode := inode.(next := first.value);
      vol.InodeWrite(inode.self, inode);
      WriteBlock(inode.next, Zeros(BLOCK_SIZE));
      ZeroChain(d1, inode.next);
      rep := Rep([inode.next], []);
      RestOfDataWrite(alloc, d1, inode.next, Zeros(BLOCK_SIZE));
      RestThrough(alloc, old(vol.blocks), d1, vol.blocks);
      StepGrows(alloc, old(vol.blocks), vol.blocks, old(alloc.live), alloc.live, Rep([], []), rep);
      ok := true;
    }

    /** Put a data block, which is not cleared, into the first slot of the empty map. */
    method FirstBlock() returns (ok: bool, w: Walk)
      requires Linked() && rep == Rep([inode.next], []) && MapAt(vol.blocks, inode.next) == EMPTY_MAP
      modifies this`rep, alloc, alloc.window, vol`blocks
      ensures (!ok ==> alloc.Room() == 0) && Spent(old(Stock()), old(alloc.IsExact()))
      ensures Linked() && old(alloc.live) <= alloc.live
      ensures rep.maps == old(rep.maps) && OursOrFresh(rep.blks, alloc.regionStart, old(alloc.live), [])
      ensures LiveFor(alloc.regionStart, old(alloc.live), alloc.live, BlocksOf(rep))
      ensures RestSame(alloc, old(vol.blocks), vol.blocks)
      ensures KeptBlocks(old(vol.blocks), vol.blocks, alloc.regionStart, old(alloc.live), [inode.next])
      ensures ok ==> Buffered(0, w, []) && w.dptr == BlockAt(vol.blocks, w.start)
      ensures ok ==> |rep.blks| == 1
      ensures !ok ==> rep == old(rep)
    {
      hide Allocator.Room, Allocator.IsExact, Mounted, Chain, MapAt, Encode, WellShaped;
      w := Walk(EMPTY_MAP, INODE_NULL, 0, INODE_NULL, Zeros(BLOCK_SIZE));
      ChainEnds(vol.blocks, inode.next, rep);
      var block := GetDataBlock();
      ChainFrame(old(vol.blocks), vol.blocks, inode.next, rep);
      if block.None? {
        return false, w;
      }
      var bmap := EMPTY_MAP.(blocks := EMPTY_MAP.blocks[0 := block.value]);
      FirstChain(vol.blocks, inode.next, block.value, bmap);
      WriteBlock(inode.next, Encode(bmap));
      rep := Rep([inode.next], [block.value]);
      var d := vol.BlockRead(block.value);
      ok, w := true, Walk(bmap, inode.next, 0, block.value, d);
    }

    /** Set up an inode without blocks. Between the two allocations it has a map and no block. */
    method FirstBlocks() returns (ok: bool, w: Walk)
      requires Valid() && inode.next == INODE_NULL
      modifies this`inode, this`rep, alloc, alloc.window, vol
      ensures (!ok ==> alloc.Room() == 0) && Spent(old(Stock()), old(alloc.IsExact()))
      ensures ok <==> old(alloc.Room()) >= 2
      ensures inode.next == INODE_NULL <==> old(alloc.Room()) == 0
      ensures |BlocksOf(rep)| == if ok then 2 else if inode.next == INODE_NULL then 0 else 1
      ensures !ok ==> |rep.blks| == 0
      ensures Mounted()
      ensures GrownSince(old(vol.blocks), old(alloc.live), old(rep))
      ensures inode == old(inode).(next := inode.next)
      ensures ok ==> Buffered(0, w, []) && w.dptr == BlockAt(vol.blocks, w.start) && contents == []
      ensures ok ==> inode.next != INODE_NULL && vol.inodes == old(vol.inodes)[inode.self := inode]
      ensures !ok && inode.next == INODE_NULL ==> Valid() && vol.inodes == old(vol.inodes)
      ensures !ok && inode.next != INODE_NULL ==>
                && Linked() && rep == Rep([inode.next], []) && vol.inodes == old(vol.inodes)[inode.self := inode]
    {
      hide Allocator.Room, Allocator.IsExact, Mounted, Chain, MapAt, RestSame, Grown, Buffered;
      w := Walk(EMPTY_MAP, INODE_NULL, 0, INODE_NULL, Zeros(BLOCK_SIZE));
      ok := FirstMap();
      if !ok {
        return;
      }
      ghost var d1, live1, rep1 := vol.blocks, alloc.live, rep;
      ok, w := FirstBlock();
      StepGrows(alloc, d1, vol.blocks, live1, alloc.live, rep1, rep);
      GrownTwice(alloc, old(vol.blocks), d1, vol.blocks, old(alloc.live), live1, alloc.live, old(rep), rep1, rep);
    }

    /** The scan: follow the chain through `ScanCount(pos)` maps. */
    method ScanTo(pos: nat) returns (bmap: BlockMap, current: nat)
      requires Linked() && pos < BLOCK_SIZE * |rep.blks|
      ensures ScanCount(pos) <= |rep.maps| && current == rep.maps[ScanCount(pos) - 1]
      ensures bmap == MapAt(vol.blocks, current)
    {
      ScanFits(rep, pos);
      assert inode.next in rep.maps;
      var iter := ScanCount(pos);
      var i := 0;
      bmap, current := BlockMap(inode.next, EMPTY_MAP.blocks), INODE_NULL;
      while i < iter
        invariant i <= iter
        invariant i == 0 ==> bmap.next == rep.maps[0]
        invariant i > 0 ==> current == rep.maps[i - 1] && bmap == MapAt(vol.blocks, current)
      {
        if i > 0 {
          LinkOf(vol.blocks, inode.next, rep, i - 1);
        }
        current := bmap.next;
        bmap := vol.MapRead(bmap.next);
        i := i + 1;
      }
    }

    /** Find the block to start from in a chain: the first one, the cached one, or by a scan. */
    method LocateIn(pos: nat) returns (w: Walk)
      requires Valid() && StartsAt(pos) && inode.next != INODE_NULL
      ensures Buffered(Landing(pos) / BLOCK_SIZE, w, contents) && w.dptr == BlockAt(vol.blocks, w.start)
    {
      hide Chain, Allocator.Valid, Mounted, HoldsBytes, MapAt;
      var bmap, current, iblock, start := EMPTY_MAP, INODE_NULL, 0, INODE_NULL;
      ghost var q := Landing(pos) / BLOCK_SIZE;
      if inode.pos == 0 && inode.current == INODE_NULL {
        current := inode.next;
        bmap := vol.MapRead(current);
        ChainEnds(vol.blocks, inode.next, rep);
        SlotOf(vol.blocks, inode.next, rep, 0);
        start, iblock := bmap.blocks[0], 0;
      } else if inode.pos == pos && inode.current != INODE_NULL && inode.iblock != INODE_NOPOS {
        start, iblock := inode.current, inode.iblock;
        bmap := vol.MapRead(inode.currentParent);
        current := inode.currentParent;
      } else {
        LandingBlock(pos);
        bmap, current := ScanTo(pos);
        iblock := pos / BLOCK_SIZE % BMAP_BLOCKS;
        SlotOf(vol.blocks, inode.next, rep, q);
        start := bmap.blocks[iblock];
      }
      var dptr := vol.BlockRead(start);
      w := Walk(bmap, current, iblock, start, dptr);
      assert SameOn(vol.blocks, vol.blocks[start := dptr], rep.blks);
      BytesFrame(vol.blocks, vol.blocks[start := dptr], rep.blks, contents);
    }

    /** Find the block to start from, setting up a file that has none. */
    method Locate(pos: nat) returns (ok: bool, w: Walk)
      requires Valid() && StartsAt(pos)
      modifies this`inode, this`rep, alloc, alloc.window, vol
      ensures (!ok ==> alloc.Room() == 0) && Spent(old(Stock()), old(alloc.IsExact()))
      ensures if ok then |BlocksOf(rep)| == (if old(inode.next) == INODE_NULL then 2 else old(|BlocksOf(rep)|))
              else Capacity(old(Stock())) == 0
      ensures Mounted()
      ensures GrownSince(old(vol.blocks), old(alloc.live), old(rep))
      ensures inode == old(inode).(next := inode.next)
      ensures ok ==>
                && inode.next != INODE_NULL && |contents| < BLOCK_SIZE * |rep.blks| && CursorAgrees()
                && Buffered(old(Landing(pos)) / BLOCK_SIZE, w, contents) && w.dptr == BlockAt(vol.blocks, w.start)
      ensures !ok ==> old(inode.next) == INODE_NULL && if inode.next == INODE_NULL then Valid() else Bare()
      ensures old(inode.next) != INODE_NULL ==>
                rep == old(rep) && inode == old(inode) && vol.blocks == old(vol.blocks) && alloc.live == old(alloc.live)
      ensures vol.inodes == if inode == old(inode) then old(vol.inodes) else old(vol.inodes)[inode.self := inode]
    {
      hide Allocator.Room, Allocator.IsExact, Mounted, HoldsBytes, Grown, Chain, MapAt;
      ok := true;
      if inode.next == INODE_NULL {
        ok, w := FirstBlocks();
        return;
      }
      GrownStart();
      w := LocateIn(pos);
    }

    /** The scan lands on the block of `pos`, or of the byte 65024 before it. */
    lemma LandingBlock(pos: nat)
      requires Scans(pos)
      ensures Landing(pos) / BLOCK_SIZE / BMAP_BLOCKS == ScanCount(pos) - 1
      ensures Landing(pos) / BLOCK_SIZE % BMAP_BLOCKS == pos / BLOCK_SIZE % BMAP_BLOCKS
    {
      ScanCountExact(pos);
    }

    /** Lines 539-562: record where the transfer ended, in memory and on disk. `c` is what the
        blocks hold now. */
    method Complete(pos: nat, processed: nat, w: Walk, ghost q: nat, ghost off: nat, ghost c: seq<bv8>,
                    ghost s: Start)
      requires Linked() && HoldsBytes(vol.blocks, rep.blks, c)
      requires inode.size == |contents| <= |c| <= BLOCK_SIZE * |rep.blks| && |contents| < BLOCK_SIZE * |rep.blks|
      requires pos <= inode.size && 0 < processed
      requires |c| <= if |contents| < off + processed then off + processed else |contents|
      requires q == (off + processed) / BLOCK_SIZE && At(q, MapAt(vol.blocks, w.current), w.current, w.iblock)
      requires w.start == rep.blks[q] && inode.self < alloc.regionStart && Since(s)
      modifies this`inode, this`contents, vol`inodes
      ensures inode == old(inode).(
                pos := pos + processed,
                size := if old(inode.size) < pos + processed then pos + processed else old(inode.size),
                current := w.start, currentParent := w.current, iblock := w.iblock)
      ensures vol.inodes == old(vol.inodes)[inode.self := inode]
      ensures !Loose() && Since(s)
      ensures off == pos ==> Valid() && c <= contents
    {
      hide Chain, Allocator.Valid, Mounted, HoldsBytes, MapAt, InodesKept, Grown, Led, Since, Stock, Allocator.Room;
      SinceThen(s);
      ghost var before, node, mid := vol.inodes, inode, Now();
      assert rep.blks[q] in rep.blks && rep.maps[0] in rep.maps;
      ChainEnds(vol.blocks, inode.next, rep);
      PositionFits(off + processed, |rep.blks|);
      inode := inode.(pos := pos + processed);
      if inode.size < pos + processed {
        inode := inode.(size := pos + processed);
      }
      inode := inode.(current := w.start, currentParent := w.current, iblock := w.iblock);
      vol.InodeWrite(inode.self, inode);
      InodeRewritten(before, node, inode);
      SinceInode(s, mid);
      if off == pos {
        contents := ExtendBytes(vol.blocks, rep.blks, c, inode.size);
        assert inode.pos / BLOCK_SIZE == q && CursorAgrees();
      }
    }

    /** A transfer that failed keeps the size: of what it wrote the file shows the part below it. */
    ghost method Abandon(c: seq<bv8>)
      requires Linked() && CursorAgrees() && HoldsBytes(vol.blocks, rep.blks, c)
      requires inode.size <= |c| && inode.size < BLOCK_SIZE * |rep.blks| && inode.self < alloc.regionStart
      modifies this`contents
      ensures Valid() && contents == c[..inode.size]
    {
      assert rep.maps[0] in rep.maps;
      BytesPrefix(vol.blocks, rep.blks, c, inode.size);
      contents := c[..inode.size];
    }

    /** Find the place and move the bytes; the inode still has its old position and size. */
    method MoveData(pos: nat, length: nat, data: array<bv8>, reading: bool)
      returns (located: bool, ok: bool, processed: nat, w: Walk, ghost q: nat)
      requires Valid() && StartsAt(pos) && 0 < length <= data.Length && data != alloc.window
      modifies this`inode, this`rep, alloc, alloc.window, vol, data
      ensures (!ok ==> alloc.Room() == 0) && Since(old(Now()))
      ensures var off := old(Landing(pos));
              if ok then |BlocksOf(rep)| == Max(old(|BlocksOf(rep)|), BlocksFor((off + length) / BLOCK_SIZE + 1))
              else off + processed == Capacity(old(Stock()))
      ensures ok <==> old(Landing(pos)) + length < Capacity(old(Stock()))
      ensures !reading ==> data[..] == old(data[..])
      ensures inode == old(inode).(next := inode.next)
      ensures vol.inodes == if inode == old(inode) then old(vol.inodes) else old(vol.inodes)[inode.self := inode]
      ensures !located ==> old(inode.next) == INODE_NULL && !ok && processed == 0
      ensures !located ==> if inode.next == INODE_NULL then Valid() else Bare()
      ensures located ==>
                Linked() && inode.next != INODE_NULL && 0 < processed <= length && (ok ==> processed == length)
      ensures located ==> CursorAgrees() && |contents| < BLOCK_SIZE * |rep.blks|
      ensures located ==> HoldsBytes(vol.blocks, rep.blks,
                AfterTransfer(old(contents), old(Landing(pos)), old(data[..processed]), reading))
      ensures located && reading ==>
                forall k :: 0 <= k < processed && old(Landing(pos)) + k < |contents| ==>
                  data[k] == contents[old(Landing(pos)) + k]
      ensures ok ==>
                q == (old(Landing(pos)) + length) / BLOCK_SIZE && old(Landing(pos)) + length < BLOCK_SIZE * |rep.blks|
      ensures ok ==> At(q, MapAt(vol.blocks, w.current), w.current, w.iblock) && w.start == rep.blks[q]
      ensures old(inode.next) != INODE_NULL && old(Landing(pos)) + length <= |contents| ==>
                ok && rep == old(rep) && alloc.live == old(alloc.live)
      ensures reading && old(inode.next) != INODE_NULL && old(Landing(pos)) + length <= |contents| ==>
                ok && UntouchedSince(old(vol.blocks), old(alloc.live), old(rep))
    {
      hide Chain, Allocator.Valid, BlocksOf, MapAt, Allocator.Room, Allocator.IsExact, InodesKept, Linked, Mounted,
        HoldsBytes, Grown, Valid, CursorIn, BlocksFor, Max, Stock, Capacity;
      ValidSize();
      ghost var s, inodes0, node0 := Now(), vol.inodes, inode;
      ok, processed, q := false, 0, 0;
      ghost var off := Landing(pos);
      ghost var d0, live0, rep0 := vol.blocks, alloc.live, rep;
      located, w := Locate(pos);
      InodeRewritten(inodes0, node0, inode);
      if !located {
        SinceBy(s);
        return;
      }
      ghost var d1, live1, rep1 := vol.blocks, alloc.live, rep;
      ok, processed, w, q := Transfer(off, pos % BLOCK_SIZE, length, data, reading, w);
      LinkedIsMounted();
      GrownPrefix(d1, live1, rep1);
      CursorGrows(rep1, rep);
      GrownTwice(alloc, d0, d1, vol.blocks, live0, live1, alloc.live, rep0, rep1, rep);
      MaxFirst((off + length) / BLOCK_SIZE + 1);
      PositionFits(off + length, |rep.blks|);
      SinceBy(s);
    }

    /** file_read_write with work to do; `off` is where it lands. */
    method Process(pos: nat, length: nat, data: array<bv8>, reading: bool, ghost off: nat)
      returns (ok: bool, processed: nat)
      requires Valid() && StartsAt(pos) && 0 < length <= data.Length && data != alloc.window
      requires off == Landing(pos)
      modifies this, alloc, alloc.window, vol, data
      ensures (!ok ==> alloc.Room() == 0) && Since(old(Now()))
      ensures ok <==> off + length < Capacity(old(Stock()))
      ensures if ok then |BlocksOf(rep)| == Max(old(|BlocksOf(rep)|), BlocksFor((off + length) / BLOCK_SIZE + 1))
              else off + processed == Capacity(old(Stock()))
      ensures !reading ==> data[..] == old(data[..])
      ensures ok ==> processed == length
      ensures ok ==>
                && inode.pos == pos + length
                && inode.size == (if old(inode.size) < pos + length then pos + length else old(inode.size))
                && inode.next != INODE_NULL && !Loose()
                && vol.inodes == old(vol.inodes)[inode.self := inode]
      ensures ok ==> HoldsBytes(vol.blocks, rep.blks, AfterTransfer(old(contents), off, old(data[..length]), reading))
      ensures ok && reading ==>
                forall k :: 0 <= k < length && off + k < old(|contents|) ==> data[k] == old(contents)[off + k]
      ensures ok && off == pos ==> Valid()
      ensures ok && off == pos ==> AfterTransfer(old(contents), off, old(data[..length]), reading) <= contents
      ensures old(inode.next) != INODE_NULL && off + length <= old(|contents|) ==>
                ok && rep == old(rep) && alloc.live == old(alloc.live)
      ensures reading && old(inode.next) != INODE_NULL && off + length <= old(|contents|) ==>
                ok && UntouchedSince(old(vol.blocks), old(alloc.live), old(rep))
      ensures !ok ==> inode == old(inode).(next := inode.next) && processed <= length
      ensures !ok ==> Left(old(inode.next))
      ensures !ok ==> contents == AfterTransfer(old(contents), off, old(data[..processed]), reading)[..old(|contents|)]
    {
      hide Chain, Led, BlocksOf, Allocator.Valid, Allocator.Room, Allocator.IsExact, Now, Since, Stock, Linked,
        Mounted, HoldsBytes, CursorAgrees, At, Valid, Bare, Misses, Landing, Splice, UntouchedSince, BlocksFor, Max,
        Capacity;
      ValidSize();
      ghost var s, c0, payload := Now(), contents, data[..];
      var located, w;
      ghost var q;
      located, ok, processed, w, q := MoveData(pos, length, data, reading);
      SpliceSize(c0, off, payload[..processed]);
      if !located && inode.next != INODE_NULL {
        BareIsNotValid();
      }
      if located {
        ghost var c := AfterTransfer(c0, off, payload[..processed], reading);
        if ok {
          Complete(pos, processed, w, q, off, c, s);
        } else {
          Abandon(c);
        }
      }
    }

    /** With no room left, a file that a failed call left is bare exactly if it had one block to get. */
    lemma LeftBareIff(next: nat, stock: nat)
      requires Left(next) && alloc.Room() == 0 && Stock() == stock
      ensures if stock == 1 then Bare() && !Valid() && next == INODE_NULL else Valid() && !Bare()
    {
      hide Allocator.Room, Mounted, HoldsBytes;
    }

    lemma NoBlocksIff()
      requires Valid()
      ensures |BlocksOf(rep)| == 0 <==> inode.next == INODE_NULL
      ensures |BlocksOf(rep)| != 1
    {
      hide Mounted, HoldsBytes, MapHolds;
    }

    /** A file that has or can get one block has none. */
    lemma StockOfOne()
      requires Valid()
      ensures Stock() == 1 <==> inode.next == INODE_NULL && alloc.Room() == 1
      ensures inode.next == INODE_NULL <==> |BlocksOf(rep)| == 0
    {
      hide Allocator.Room, Valid, BlocksOf;
      NoBlocksIff();
    }

    /** file_read_write. Unless the walk misses, a write replaces exactly the bytes from
        `pos` on and a read returns them; a walk that misses works 65024 bytes earlier. */
    method ReadWrite(pos: nat, length: nat, data: array<bv8>, reading: bool) returns (ok: bool, processed: nat)
      requires Valid() && StartsAt(pos) && length <= data.Length && data != alloc.window
      modifies this, alloc, alloc.window, vol, data
      ensures (!ok ==> alloc.Room() == 0) && Since(old(Now()))
      ensures length > 0 ==> (ok <==> old(Landing(pos)) + length < Capacity(old(Stock())))
      ensures ok && length > 0 ==>
                |BlocksOf(rep)| == Max(old(|BlocksOf(rep)|), BlocksFor((old(Landing(pos)) + length) / BLOCK_SIZE + 1))
      ensures !ok ==> old(Landing(pos)) + processed == Capacity(old(Stock()))
      ensures !reading ==> data[..] == old(data[..])
      ensures length == 0 ==>
                && ok && processed == 0 && inode == old(inode) && vol.inodes == old(vol.inodes)
                && UntouchedSince(old(vol.blocks), old(alloc.live), old(rep))
      ensures ok ==> processed == length
      ensures ok && length > 0 ==>
                && inode.pos == pos + length
                && inode.size == (if old(inode.size) < pos + length then pos + length else old(inode.size))
                && inode.next != INODE_NULL && !Loose()
                && vol.inodes == old(vol.inodes)[inode.self := inode]
      ensures ok && length > 0 ==>
                HoldsBytes(vol.blocks, rep.blks, AfterTransfer(old(contents), old(Landing(pos)), old(data[..length]),
                  reading))
      ensures ok && reading ==>
                forall k :: 0 <= k < length && old(Landing(pos)) + k < old(|contents|) ==>
                  data[k] == old(contents)[old(Landing(pos)) + k]
      ensures ok && (length == 0 || !old(Misses(pos))) ==> Valid()
      ensures ok && (length == 0 || !old(Misses(pos))) ==>
                if reading then old(contents) <= contents
                  else contents == Splice(old(contents), pos, old(data[..length]))
      ensures old(inode.next) != INODE_NULL && old(Landing(pos)) + length <= old(|contents|) ==>
                ok && rep == old(rep) && alloc.live == old(alloc.live)
      ensures reading && old(inode.next) != INODE_NULL && old(Landing(pos)) + length <= old(|contents|) ==>
                ok && UntouchedSince(old(vol.blocks), old(alloc.live), old(rep))
      ensures !ok ==> inode == old(inode).(next := inode.next) && processed <= length
      ensures if length > 0 && old(inode.next) == INODE_NULL && old(alloc.Room()) == 1 then
                !ok && Bare() && !Valid() && processed == 0
              else !ok ==> Valid()
      ensures !ok ==> contents == AfterTransfer(old(contents), old(Landing(pos)), old(data[..processed]),
                reading)[..old(|contents|)]
    {
      hide BlocksFor, Max, Capacity, Allocator.Room, Allocator.IsExact, Now, Since, Stock;
      if length == 0 {
        SinceStart();
        assert Splice(contents, pos, data[..0]) == contents;
        return true, 0;
      }
      LandsThere(pos);
      ghost var s := Now();
      ghost var stock, next := Stock(), inode.next;
      StockOfOne();
      CapacityOfOne();
      SinceStart();
      ok, processed := Process(pos, length, data, reading, Landing(pos));
      if !ok {
        SinceThen(s);
        LeftBareIff(next, stock);
      }
    }

    /** klseek. It changes the position only, and the next transfer has to scan. */
    method Seek(offset: int, whence: Whence) returns (r: int)
      requires Valid()
      modifies this`inode, vol`inodes
      ensures Valid() && Since(old(Now())) && r == SeekTo(old(inode.size), old(inode.pos), offset, whence)
      ensures whence.SeekOther? ==> r == -1 && inode == old(inode) && vol.inodes == old(vol.inodes)
      ensures whence.SeekSet? && 0 <= offset < POS_LIMIT ==> r == offset
      ensures whence.SeekSet? && -POS_LIMIT <= offset < 0 ==> r == POS_LIMIT + offset
      ensures whence.SeekCur? && 0 <= old(inode.pos) + offset <= SSIZE_MAX ==> r == old(inode.pos) + offset
      ensures whence.SeekCur? && SSIZE_MAX < old(inode.pos) + offset < POS_LIMIT ==> r == SSIZE_MAX
      ensures whence.SeekCur? && SSIZE_MAX - POS_LIMIT < old(inode.pos) + offset < 0 ==> r == SSIZE_MAX
      ensures whence.SeekEnd? && 0 <= old(inode.size) + offset < POS_LIMIT ==> r == old(inode.size) + offset
      ensures whence.SeekEnd? && -POS_LIMIT <= old(inode.size) + offset < 0 ==>
                r == POS_LIMIT + old(inode.size) + offset
      ensures !whence.SeekOther? ==>
                && inode == old(inode).(pos := r, iblock := INODE_NOPOS)
                && vol.inodes == old(vol.inodes)[inode.self := inode]
    {
      hide Allocator.Room, Allocator.IsExact, Chain, Allocator.Valid, Grown, InodesKept, HoldsBytes;
      ghost var inodes0, node := vol.inodes, inode;
      GrownStart();
      SeekGoes(inode.size, inode.pos, offset);
      match whence {
        case SeekSet =>
          inode := inode.(pos := offset % POS_LIMIT);
        case SeekCur =>
          inode := inode.(pos := (inode.pos + offset) % POS_LIMIT);
          if inode.pos > SSIZE_MAX {
            inode := inode.(pos := SSIZE_MAX);
          }
        case SeekEnd =>
          inode := inode.(pos := (inode.size + offset) % POS_LIMIT);
        case SeekOther =>
          SinceStart();
          return -1;
      }
      inode := inode.(iblock := INODE_NOPOS);
      vol.InodeWrite(inode.self, inode);
      InodeRewritten(inodes0, node, inode);
      r := inode.pos;
    }

    /** A call at the file position meets the short scan: on its first transfer, which starts
        at the position or, when that lies past the end, at the size. */
    ghost predicate CallMisses(count: nat)
      reads this`inode
    {
      if inode.pos > inode.size then Misses(inode.size) else count > 0 && Misses(inode.pos)
    }

    /** Which calls meet the short scan, in terms of what a caller can see. */
    lemma CallMissesIff(count: nat)
      requires Valid()
      ensures CallMisses(count) <==> MissesOn(|contents|, inode.pos, Loose(), count)
      ensures inode.pos > |contents| ==> Loose()
    {
    }

    /** The first slot of a bare file is null, which is what file_read_write would take for the
        number of its first data block. */
    lemma BareStartsAtNull()
      requires Bare()
      ensures MapAt(vol.blocks, inode.next).blocks[0] == INODE_NULL
    {
      hide Mounted, MapAt;
      EmptySlot(vol.blocks, inode.next, rep, 0, 0);
    }

    /** kclose on the last descriptor of the file. */
    method Close()
      requires Valid() || Bare()
      modifies this`inode, vol`inodes
      ensures (old(Valid()) ==> Valid()) && (old(Bare()) ==> Bare())
      ensures inode == old(inode).(current := INODE_NULL, currentParent := INODE_NULL, iblock := 0, pos := 0)
      ensures vol.inodes == old(vol.inodes)[inode.self := inode]
    {
      inode := inode.(current := INODE_NULL, currentParent := INODE_NULL, iblock := 0, pos := 0);
      vol.InodeWrite(inode.self, inode);
    }

    /** Closing a file and opening it again finds the same bytes. */
    method Reopen(append: bool) returns (f: OpenFile)
      requires Valid()
      modifies this`inode, vol`inodes
      ensures Valid() && fresh(f) && f.Valid() && f.vol == vol && f.alloc == alloc
      ensures f.contents == old(contents) && f.rep == rep && f.inode.self == inode.self
      ensures f.inode.pos == (if append then |f.contents| else 0) && f.Loose()
    {
      Close();
      f := new OpenFile(vol, alloc, inode.self, append, rep, contents);
    }

    /** Whatever this file did, a valid file that stands apart from it stays as it was. */
    twostate lemma OthersKept(g: OpenFile)
      requires g.vol == vol && g.alloc == alloc && Mounted()
      requires unchanged(g) && old(g.Valid() && Apart(g.rep, rep))
      requires GrownSince(old(vol.blocks), old(alloc.live), old(rep))
      ensures g.Valid() && Apart(g.rep, rep)
    {
      hide Chain, HoldsBytes, Grown, Allocator.Valid;
      if g.inode.next != INODE_NULL {
        g.OwnsAll(old(alloc.live));
        Isolation(alloc, old(vol.blocks), vol.blocks, old(alloc.live), alloc.live, old(rep), rep,
          g.inode.next, g.rep, g.contents);
        g.OwnsAll(alloc.live);
      }
    }

    /** The maps and the data blocks of the chain are live if and only if all its blocks are. */
    lemma OwnsAll(live: set<nat>)
      ensures InUse(BlocksOf(rep), alloc.regionStart, live)
              <==> InUse(rep.maps, alloc.regionStart, live) && InUse(rep.blks, alloc.regionStart, live)
    {
      assert forall b :: b in rep.maps || b in rep.blks <==> b in BlocksOf(rep);
    }

    /** One step of filling a gap: `n` bytes at the end, from a buffer of zeros. */
    method FillStep(n: nat, zeroData: array<bv8>, reading: bool, ghost s: Start) returns (ok: bool, filled: nat)
      requires Valid() && Since(s) && 0 < n <= zeroData.Length && zeroData != alloc.window
      requires inode.pos >= inode.size && !Misses(inode.size)
      requires !reading ==> zeroData[..] == Zeros(zeroData.Length)
      modifies this, alloc, alloc.window, vol, zeroData
      ensures (!ok ==> alloc.Room() == 0) && Since(s)
      ensures ok <==> old(inode.size) + n < Capacity(s.stock)
      ensures ok ==> |BlocksOf(rep)| == Max(old(|BlocksOf(rep)|), BlocksFor((old(inode.size) + n) / BLOCK_SIZE + 1))
      ensures !reading ==> zeroData[..] == old(zeroData[..])
      ensures ok ==> Valid() && filled == n && inode.pos == inode.size == old(inode.size) + n && !Loose()
      ensures ok ==> inode.next != INODE_NULL
      ensures ok ==> if reading then old(contents) <= contents else contents == old(contents) + Zeros(n)
      ensures !ok ==> contents == old(contents) && inode == old(inode).(next := inode.next) && Left(old(inode.next))
    {
      hide Allocator.Room, Allocator.IsExact, Linked, Mounted, CursorAgrees, HoldsBytes, SameBlocks, Valid, Bare,
        Stock, Now, Since, Capacity, BlocksFor, Max;
      ValidSize();
      SinceThen(s);
      ghost var mid, c0, z := Now(), contents, zeroData[..];
      ok, filled := ReadWrite(inode.size, n, zeroData, reading);
      SinceTwice(s, mid);
      if ok {
        assert z[..n] == Zeros(n) || reading;
        SpliceAtEnd(c0, z[..n]);
      } else {
        SpliceAtEnd(c0, z[..filled]);
      }
    }

    /** The part of kread and kwrite that brings the size up to the position: 512 bytes at a
        time and then the rest, by writing zeros or by reading. */
    method FillGap(reading: bool) returns (ok: bool, filled: nat)
      requires Valid() && inode.pos > inode.size && inode.pos - inode.size < GAP_LIMIT
      requires !Misses(inode.size)
      modifies this, alloc, alloc.window, vol
      ensures (!ok ==> alloc.Room() == 0) && Since(old(Now()))
      ensures ok <==> old(inode.pos) < Capacity(old(Stock()))
      ensures if ok then |BlocksOf(rep)| == Max(old(|BlocksOf(rep)|), BlocksFor(old(inode.pos) / BLOCK_SIZE + 1))
              else |contents| == Filled(old(inode.size), old(inode.pos), Capacity(old(Stock())))
      ensures ok ==> Valid() && filled == old(inode.pos) - old(inode.size)
      ensures ok ==> inode.pos == inode.size == old(inode.pos) && !Loose()
      ensures ok ==> if reading then old(contents) <= contents else contents == old(contents) + Zeros(filled)
      ensures ok ==> inode.next != INODE_NULL
      ensures !ok ==> old(contents) <= contents && |contents| <= old(inode.pos) && Left(old(inode.next))
      ensures !ok && !reading ==> contents == old(contents) + Zeros(|contents| - old(|contents|))
      ensures !ok && |contents| == old(|contents|) ==> inode == old(inode).(next := inode.next)
      ensures !ok && |contents| > old(|contents|) ==> inode.pos == |contents| && !Loose()
    {
      hide Allocator.Room, Allocator.IsExact, Valid, Bare, Mounted, Misses, Scans, Loose, Stock, Now, Since, Capacity,
        BlocksFor, Max, Filled, BlocksOf, Filling, Halted, Left;
      ValidSize();
      var zeroData := new bv8[BLOCK_SIZE](_ => 0);
      var gap := inode.pos - inode.size;
      GapSteps(gap);
      var iter: nat, mod: nat := gap / BLOCK_SIZE % WORD_LIMIT, gap % BLOCK_SIZE;
      ghost var s, c0, node0 := Now(), contents, inode;
      assert zeroData[..] == Zeros(BLOCK_SIZE);
      FillingStarts(reading);
      filled, ok := 0, true;
      while iter > 0
        invariant Filling(s, c0, node0, filled, reading)
        invariant !reading ==> zeroData[..] == Zeros(BLOCK_SIZE)
        invariant filled + BLOCK_SIZE * iter + mod == gap
        decreases iter
      {
        iter := iter - 1;
        filled, ok := FillMore(BLOCK_SIZE, zeroData, reading, filled, s, c0, node0);
        if !ok {
          FillingHalts(s, c0, node0, reading);
          return;
        }
      }
      if mod > 0 {
        filled, ok := FillMore(mod, zeroData, reading, filled, s, c0, node0);
      }
      if ok {
        FillingEnds(s, c0, node0, filled, reading);
      } else {
        FillingHalts(s, c0, node0, reading);
      }
    }

    /** Since `s`, when the inode was `node0`, the contents `c0` have grown by `filled` bytes. */
    ghost predicate Filling(s: Start, c0: seq<bv8>, node0: InodeRecord, filled: nat, reading: bool)
      reads this, alloc, vol, alloc.window
    {
      && Since(s) && Valid() && |contents| == |c0| + filled && inode.pos >= inode.size && !Misses(inode.size)
      && (if filled > 0 then inode.pos == inode.size && !Loose() && inode.next != INODE_NULL else inode == node0)
      && (if reading then c0 <= contents else contents == c0 + Zeros(filled))
      && FilledTo(|c0|, node0.pos, Capacity(s.stock), |BlocksOf(s.rep)|, |contents|, |BlocksOf(rep)|)
    }

    /** Filling failed, and left what had been filled. */
    ghost predicate Halted(s: Start, c0: seq<bv8>, node0: InodeRecord, reading: bool)
      reads this, alloc, vol, alloc.window
    {
      && Since(s) && alloc.Room() == 0 && Left(node0.next)
      && c0 <= contents && (!reading ==> contents == c0 + Zeros(|contents| - |c0|))
      && (if contents == c0 then inode == node0.(next := inode.next) else inode.pos == |contents| && !Loose())
      && Capacity(s.stock) <= node0.pos && |c0| <= node0.pos
      && |contents| == Filled(|c0|, node0.pos, Capacity(s.stock))
    }

    lemma FillingStarts(reading: bool)
      requires Valid() && inode.pos >= inode.size && !Misses(inode.size)
      ensures Filling(Now(), contents, inode, 0, reading) && Now().stock == Stock() && Now().rep == rep
    {
    }

    lemma FillingEnds(s: Start, c0: seq<bv8>, node0: InodeRecord, filled: nat, reading: bool)
      requires Filling(s, c0, node0, filled, reading) && 0 < filled == node0.pos - |c0|
      ensures Since(s) && Valid() && inode.pos == inode.size == node0.pos && !Loose() && inode.next != INODE_NULL
      ensures if reading then c0 <= contents else contents == c0 + Zeros(filled)
      ensures node0.pos < Capacity(s.stock)
      ensures |BlocksOf(rep)| == Max(|BlocksOf(s.rep)|, BlocksFor(node0.pos / BLOCK_SIZE + 1))
    {
      hide Since, Max, BlocksFor, Valid, Misses, Loose, Capacity, BlocksOf;
      ValidSize();
    }

    lemma FillingHalts(s: Start, c0: seq<bv8>, node0: InodeRecord, reading: bool)
      requires Halted(s, c0, node0, reading)
      ensures Since(s) && alloc.Room() == 0 && Left(node0.next)
      ensures c0 <= contents && (!reading ==> contents == c0 + Zeros(|contents| - |c0|))
      ensures if |contents| == |c0| then inode == node0.(next := inode.next) else inode.pos == |contents| && !Loose()
      ensures Capacity(s.stock) <= node0.pos && |c0| <= node0.pos
      ensures |contents| == Filled(|c0|, node0.pos, Capacity(s.stock))
    {
    }

    /** FillStep, counted. */
    method FillMore(n: nat, zeroData: array<bv8>, reading: bool, filled: nat,
                    ghost s: Start, ghost c0: seq<bv8>, ghost node0: InodeRecord)
      returns (filled': nat, ok: bool)
      requires Filling(s, c0, node0, filled, reading)
      requires 0 < n <= zeroData.Length && zeroData != alloc.window
      requires |c0| + filled < node0.pos
      requires n == if node0.pos - |c0| - filled >= BLOCK_SIZE then BLOCK_SIZE else node0.pos - |c0| - filled
      requires !reading ==> zeroData[..] == Zeros(zeroData.Length)
      modifies this, alloc, alloc.window, vol, zeroData
      ensures !reading ==> zeroData[..] == old(zeroData[..])
      ensures if ok then filled' == filled + n && Filling(s, c0, node0, filled', reading)
              else Halted(s, c0, node0, reading)
    {
      hide Chain, Led, Grown, BlocksOf, Allocator.Room, Allocator.IsExact, Linked, Mounted, CursorAgrees, HoldsBytes,
        SameBlocks, Valid, Bare, Stock, Now, Since, Capacity, BlocksFor, Max, FilledTo, Filled;
      ValidSize();
      FilledMore(|c0|, node0.pos, Capacity(s.stock), |BlocksOf(s.rep)|, |contents|, |BlocksOf(rep)|, n);
      var tmp;
      ok, tmp := FillStep(n, zeroData, reading, s);
      filled' := filled + tmp;
      if ok {
        ValidSize();
      }
    }

    /** The transfer at the file position, as the end of a call that began on disk `d0`. */
    method Continue(buf: array<bv8>, count: nat, reading: bool,
                    ghost s: Start)
      returns (ok: bool, processed: nat)
      requires Valid() && inode.pos <= inode.size && count <= buf.Length && buf != alloc.window
      requires count > 0 ==> !Misses(inode.pos)
      requires Since(s)
      modifies this, alloc, alloc.window, vol, buf
      ensures (!ok ==> alloc.Room() == 0) && Since(s) && Stock() == old(Stock())
      ensures count > 0 ==> (ok <==> old(inode.pos) + count < Capacity(old(Stock())))
      ensures count == 0 ==> ok && rep == old(rep)
      ensures ok && count > 0 ==>
                |BlocksOf(rep)| == Max(old(|BlocksOf(rep)|), BlocksFor((old(inode.pos) + count) / BLOCK_SIZE + 1))
      ensures !ok ==> old(inode.pos) + processed == Capacity(old(Stock()))
      ensures !reading ==> buf[..] == old(buf[..])
      ensures processed <= count
      ensures ok ==> Valid() && processed == count && inode.pos == old(inode.pos) + count
      ensures ok ==> if count > 0 then !Loose() else inode == old(inode)
      ensures ok ==> if reading then old(contents) <= contents
                     else contents == Splice(old(contents), old(inode.pos), old(buf[..count]))
      ensures ok && reading ==>
                && |contents| == (if old(inode.size) < old(inode.pos) + count then old(inode.pos) + count
                  else old(inode.size))
                && forall k :: 0 <= k < count && old(inode.pos) + k < old(|contents|) ==>
                  buf[k] == old(contents)[old(inode.pos) + k]
      ensures old(inode.pos) + count <= old(inode.size) ==> ok && rep == old(rep) && alloc.live == old(alloc.live)
      ensures reading && old(inode.pos) + count <= old(inode.size) ==>
                UntouchedSince(old(vol.blocks), old(alloc.live), old(rep))
      ensures !ok ==> Left(old(inode.next)) && inode == old(inode).(next := inode.next)
      ensures !ok ==> contents == if reading then old(contents)
                else Partly(old(contents), old(inode.pos), old(buf[..count]), processed)
    {
      hide Allocator.Room, Allocator.IsExact, Linked, Mounted, CursorAgrees, HoldsBytes, SameBlocks, Valid, Bare,
        Stock, Now, Since, Capacity, BlocksFor, Max;
      ValidSize();
      SinceThen(s);
      ghost var mid, c, payload := Now(), contents, buf[..count];
      ok, processed := ReadWrite(inode.pos, count, buf, reading);
      SinceTwice(s, mid);
      if ok {
        ValidSize();
      } else {
        assert c[..|c|] == c && old(buf[..processed]) == payload[..processed];
      }
    }

    /** A call with bytes to move, on a file without blocks that can get one: that will be its
        map, and there is none for the data. */
    ghost predicate Sticks(count: nat)
      reads this`inode, alloc
    {
      !Idle(inode.size, inode.pos, count) && inode.next == INODE_NULL && alloc.Room() == 1
    }

    /** kwrite at the file position: fill the gap to it with zeros, then replace or append.
        The result counts the filling as well. Whether it succeeds, how far it gets if not, and
        what it leaves then depend on the blocks that the file has or can get. */
    method Write(buf: array<bv8>, count: nat) returns (r: int)
      requires Valid() && count <= buf.Length && buf != alloc.window && !CallMisses(count)
      requires inode.pos < inode.size + GAP_LIMIT
      modifies this, alloc, alloc.window, vol, buf
      ensures r >= 0 <==> Lasts(old(|contents|), old(inode.pos), count, Capacity(old(Stock())))
      ensures (r < 0 ==> alloc.Room() == 0) && Since(old(Now()))
      ensures r >= 0 ==> |BlocksOf(rep)| == Needs(old(|BlocksOf(rep)|), old(|contents|), old(inode.pos), count)
      ensures r >= 0 ==>
                r == if old(inode.pos) > old(|contents|) then |contents| - old(|contents|) else count
      ensures buf[..] == old(buf[..])
      ensures r >= 0 ==>
                && contents == Written(old(contents), old(inode.pos), old(buf[..count]))
                && inode.pos == old(inode.pos) + count && r == count + Gap(old(|contents|), old(inode.pos))
                && (Loose() <==> old(Loose()) && Idle(old(|contents|), old(inode.pos), count))
      ensures old(inode.pos) + count <= old(inode.size) ==>
                r == count && rep == old(rep) && alloc.live == old(alloc.live)
      ensures if old(Sticks(count)) then r < 0 && Bare() && !Valid() else Valid()
      ensures r < 0 ==>
                var k := Through(old(|contents|), old(inode.pos), Capacity(old(Stock())));
                && k <= Reach(old(|contents|), old(inode.pos), count)
                && contents == Partly(old(contents), old(inode.pos), old(buf[..count]), k)
                && inode.pos == Stop(old(|contents|), old(inode.pos), k)
                && (Loose() <==> old(Loose()) && (old(inode.pos) <= old(|contents|) || k == 0))
    {
      hide Chain, Led, Grown, InodesKept, Allocator.Valid, CursorIn, MapAt, Allocator.Room, Allocator.IsExact, Linked,
        Mounted, CursorAgrees, HoldsBytes, SameBlocks, Valid, Bare, Stock, Now, Since, Capacity, BlocksFor, Max,
        Lasts, Needs, Idle, Filled, Partly, Splice, BlocksOf, Through, Reach, Stop;
      ValidSize();
      ghost var s, c0, p0, payload, cap := Now(), contents, inode.pos, buf[..count],
        Capacity(Stock());
      ghost var stock, next0, s0 := Stock(), inode.next, |BlocksOf(rep)|;
      SinceStart();
      StockOfOne();
      var ok, filled, processed := true, 0, 0;
      if inode.pos > inode.size {
        ok, filled := FillGap(false);
        SinceThen(s);
        if !ok {
          FillsPartly(c0, p0, payload, cap, contents);
          LeftBareIff(next0, stock);
          FailsInPart(old(|contents|), p0, count, stock);
          return -1;
        }
        ValidSize();
        FillsAll(|c0|, p0, cap);
      }
      ghost var c1, s1 := contents, |BlocksOf(rep)|;
      assert buf[..count] == payload;
      ok, processed := Continue(buf, count, false, s);
      SinceThen(s);
      if !ok {
        EndsPartly(c0, c1, p0, payload, processed, cap);
        LeftBareIff(next0, stock);
        FailsInPart(old(|contents|), p0, count, stock);
        return -1;
      }
      r := processed + filled;
      WrittenSize(c0, p0, payload);
      DoneInParts(old(|contents|), p0, count, stock, s0, s1, |BlocksOf(rep)|);
    }

    /** kread at the file position. Bytes of the file come back unchanged and stay; a read
        past the end makes the file longer, if the blocks for it can be had. */
    method Read(buf: array<bv8>, count: nat) returns (r: int)
      requires Valid() && count <= buf.Length && buf != alloc.window && !CallMisses(count)
      requires inode.pos < inode.size + GAP_LIMIT
      modifies this, alloc, alloc.window, vol, buf
      ensures r >= 0 <==> Lasts(old(|contents|), old(inode.pos), count, Capacity(old(Stock())))
      ensures (r < 0 ==> alloc.Room() == 0) && Since(old(Now()))
      ensures r >= 0 ==> |BlocksOf(rep)| == Needs(old(|BlocksOf(rep)|), old(|contents|), old(inode.pos), count)
      ensures r >= 0 ==>
                && Valid() && old(contents) <= contents
                && inode.pos == old(inode.pos) + count && r == count + Gap(old(inode.size), old(inode.pos))
                && |contents| == (if old(inode.pos) + count > old(inode.size) then old(inode.pos) + count
                  else old(inode.size))
                && forall k :: 0 <= k < count && old(inode.pos) + k < old(|contents|) ==>
                  buf[k] == old(contents)[old(inode.pos) + k]
      ensures r >= 0 ==>
                r == if old(inode.pos) > old(|contents|) then |contents| - old(|contents|) else count
      ensures r >= 0 ==> if count > 0 || old(inode.pos) > old(inode.size) then !Loose() else inode == old(inode)
      ensures old(inode.pos) + count <= old(inode.size) ==>
                && r == count && contents == old(contents)
                && buf[..count] == old(contents[inode.pos..inode.pos + count])
                && UntouchedSince(old(vol.blocks), old(alloc.live), old(rep))
      ensures if old(Sticks(count)) then Bare() && !Valid() else Valid()
      ensures r < 0 ==> old(contents) <= contents
      ensures r < 0 ==>
                var k := if old(inode.pos) <= old(|contents|) then 0
                         else Through(old(|contents|), old(inode.pos), Capacity(old(Stock())));
                |contents| == old(|contents|) + k && inode.pos == Stop(old(|contents|), old(inode.pos), k)
    {
      hide Chain, Led, Grown, Allocator.Valid, Allocator.Room, Allocator.IsExact, Linked, Mounted, CursorAgrees,
        HoldsBytes, SameBlocks, Valid, Bare, Stock, Now, Since, Capacity, BlocksFor, Max, Lasts, Needs, Idle, Filled,
        BlocksOf;
      ValidSize();
      ghost var s, s0, p0, stock, next0 := Now(), |BlocksOf(rep)|, inode.pos, Stock(), inode.next;
      SinceStart();
      StockOfOne();
      var ok, filled, processed := true, 0, 0;
      if inode.pos > inode.size {
        ok, filled := FillGap(true);
        SinceThen(s);
        if !ok {
          LeftBareIff(next0, stock);
          FailsInPart(old(|contents|), p0, count, stock);
          return -1;
        }
        ValidSize();
        FillsAll(old(|contents|), p0, Capacity(stock));
      }
      ghost var s1 := |BlocksOf(rep)|;
      ok, processed := Continue(buf, count, true, s);
      SinceThen(s);
      if !ok {
        LeftBareIff(next0, stock);
        FailsInPart(old(|contents|), p0, count, stock);
        return -1;
      }
      r := processed + filled;
      DoneInParts(old(|contents|), p0, count, stock, s0, s1, |BlocksOf(rep)|);
    }
  }

  /** The transfer of a call at `pos` starts behind a positive multiple of 65024, on a file
      without a cursor. */
  predicate MissesOn(size: nat, pos: nat, loose: bool, count: nat) {
    var t := if pos > size then size else pos;
    loose && t > 0 && t % MAP_BYTES == 0 && (pos > size || count > 0)
  }

  function Gap(size: nat, pos: nat): nat {
    if pos > size then pos - size else 0
  }

  /** A write of `d` at `p`: zeros up to `p` if it lies past the end, then `d` in place. */
  function Written(c: seq<bv8>, p: nat, d: seq<bv8>): seq<bv8> {
    var e := if p > |c| then c + Zeros(p - |c|) else c;
    Splice(e, p, d)
  }

  lemma WrittenSize(c: seq<bv8>, p: nat, d: seq<bv8>)
    ensures |Written(c, p, d)| == if p + |d| > |c| then p + |d| else |c|
  {
  }

  /** How many bytes of a write at `p` can get through before it fails: those of the gap, or
      those of the data if there is no gap. */
  function Reach(size: nat, p: nat, count: nat): nat {
    if p > size then p - size else count
  }

  /** What a write of `d` at `p` leaves when it fails after `k` bytes: some zeros of the gap,
      or the first bytes of the data, as far as the old size goes. */
  function Partly(c: seq<bv8>, p: nat, d: seq<bv8>, k: nat): seq<bv8>
    requires k <= Reach(|c|, p, |d|)
  {
    if p > |c| then c + Zeros(k) else Splice(c, p, d[..k])[..|c|]
  }

  /** Where a failed call leaves the position: at the end of what it filled. */
  function Stop(size: nat, p: nat, k: nat): nat {
    if p > size && k > 0 then size + k else p
  }

  /** There is no byte to move. */
  predicate Idle(size: nat, pos: nat, count: nat) {
    count == 0 && pos <= size
  }

  /** A call gets through if it ends before the data blocks the file has or can get do. */
  predicate Lasts(size: nat, pos: nat, count: nat, cap: nat) {
    Idle(size, pos, count) || pos + count < cap
  }

  /** The blocks of a file that had `blocks` of them, after a call that got through. */
  function Needs(blocks: nat, size: nat, pos: nat, count: nat): nat {
    if Idle(size, pos, count) then blocks else Max(blocks, BlocksFor((pos + count) / BLOCK_SIZE + 1))
  }

  /** A call gets through exactly if the file does not need more blocks than it has or can get. */
  lemma LastsIff(size: nat, pos: nat, count: nat, blocks: nat, room: nat)
    ensures Lasts(size, pos, count, Capacity(blocks + room)) <==> Needs(blocks, size, pos, count) <= blocks + room
    ensures blocks <= Needs(blocks, size, pos, count)
  {
    DatasReach(blocks + room, (pos + count) / BLOCK_SIZE + 1);
  }

  /** A call that moved bytes leaves a data block for the byte behind its end, with a map for
      every 127 data blocks, or what there was if that reached so far. */
  lemma NeedsCounts(s: Rep, r: Rep, size: nat, pos: nat, count: nat)
    requires (s == Rep([], []) || WellShaped(s)) && WellShaped(r) && (count > 0 || pos > size)
    requires |BlocksOf(r)| == Needs(|BlocksOf(s)|, size, pos, count)
    ensures var k := (pos + count) / BLOCK_SIZE + 1;
            if k <= |s.blks| then |r.blks| == |s.blks| && |r.maps| == |s.maps|
            else |r.blks| == k && |r.maps| == (k + BMAP_BLOCKS - 1) / BMAP_BLOCKS
  {
    RepCounts(s);
    RepCounts(r);
    DatasReach(|BlocksOf(s)|, (pos + count) / BLOCK_SIZE + 1);
  }

  /** The size that filling a gap in steps of 512 bytes reaches with data blocks for `cap` bytes. */
  function Filled(size: nat, pos: nat, cap: nat): (n: nat)
    requires size <= pos
    ensures size <= n <= pos
    decreases pos - size
  {
    var step := if pos - size >= BLOCK_SIZE then BLOCK_SIZE else pos - size;
    if step == 0 || size + step >= cap then size else Filled(size + step, pos, cap)
  }

  /** How many bytes of a call that fails get through. */
  function Through(size: nat, pos: nat, cap: nat): nat {
    if pos > size then Filled(size, pos, cap) - size else if cap > pos then cap - pos else 0
  }

  /** A gap is filled to its end if the data blocks reach past it. */
  lemma {:induction false} FillsAll(size: nat, pos: nat, cap: nat)
    requires size <= pos < cap
    ensures Filled(size, pos, cap) == pos
    decreases pos - size
  {
    if size < pos {
      FillsAll(size + if pos - size >= BLOCK_SIZE then BLOCK_SIZE else pos - size, pos, cap);
    }
  }

  /** How far filling a gap gets: to its end if the blocks reach past it, and if not, by whole
      steps of 512 bytes as far as the next step would not fit. */
  lemma {:induction false} FilledExactly(size: nat, pos: nat, cap: nat)
    requires size <= pos
    ensures var n := Filled(size, pos, cap);
            && (n == pos <==> size == pos || pos < cap)
            && (n < pos ==> (n - size) % BLOCK_SIZE == 0 && cap <= n + BLOCK_SIZE && (n > size ==> n < cap))
    decreases pos - size
  {
    var step := if pos - size >= BLOCK_SIZE then BLOCK_SIZE else pos - size;
    if step > 0 && size + step < cap {
      FilledExactly(size + step, pos, cap);
    }
  }

  /** On the way from `from` to `pos` the file has reached `size` with `blocks` blocks. */
  ghost predicate FilledTo(from: nat, pos: nat, cap: nat, blocks0: nat, size: nat, blocks: nat) {
    && from <= size <= pos && Filled(from, pos, cap) == Filled(size, pos, cap)
    && (size > from ==> size < cap)
    && blocks == if size > from then Max(blocks0, BlocksFor(size / BLOCK_SIZE + 1)) else blocks0
  }

  /** One more step of `n` bytes, or none. */
  lemma FilledMore(from: nat, pos: nat, cap: nat, blocks0: nat, size: nat, blocks: nat, n: nat)
    requires FilledTo(from, pos, cap, blocks0, size, blocks) && size < pos
    requires n == if pos - size >= BLOCK_SIZE then BLOCK_SIZE else pos - size
    ensures size + n >= cap ==> Filled(from, pos, cap) == size && pos >= cap
    ensures size + n < cap ==>
              FilledTo(from, pos, cap, blocks0, size + n, Max(blocks, BlocksFor((size + n) / BLOCK_SIZE + 1)))
  {
    hide Max, BlocksFor;
    MaxStep(blocks0, size / BLOCK_SIZE + 1, (size + n) / BLOCK_SIZE + 1);
  }

  /** What a gap that is not filled leaves. */
  lemma FillsPartly(c: seq<bv8>, pos: nat, d: seq<bv8>, cap: nat, after: seq<bv8>)
    requires |c| < pos && c <= after && |after| == Filled(|c|, pos, cap) && after == c + Zeros(|after| - |c|)
    ensures var k := Through(|c|, pos, cap);
            && k == |after| - |c| && k <= Reach(|c|, pos, |d|) && after == Partly(c, pos, d, k)
            && Stop(|c|, pos, k) == if |after| > |c| then |after| else pos
  {
  }

  /** What a transfer that ends early leaves, behind its gap if there was one. */
  lemma EndsPartly(c: seq<bv8>, c1: seq<bv8>, pos: nat, d: seq<bv8>, processed: nat, cap: nat)
    requires pos + processed == cap && processed <= |d|
    requires if pos > |c| then c1 == c + Zeros(pos - |c|) && Filled(|c|, pos, cap) == pos else c1 == c
    ensures var k := Through(|c|, pos, cap);
            && k <= Reach(|c|, pos, |d|) && Partly(c1, pos, d, processed) == Partly(c, pos, d, k)
            && Stop(|c|, pos, k) == pos && (pos > |c| ==> k > 0)
  {
    hide Filled;
    SpliceAtEnd(c1, d[..processed]);
  }

  lemma CapacityOfOne()
    ensures Capacity(1) == 0
  {
  }

  /** A call whose two parts got through. */
  lemma DoneInParts(size: nat, pos: nat, count: nat, stock: nat, s0: nat, s1: nat, s2: nat)
    requires pos > size ==> pos < Capacity(stock)
    requires count > 0 ==> pos + count < Capacity(stock)
    requires s1 == if pos > size then Max(s0, BlocksFor(pos / BLOCK_SIZE + 1)) else s0
    requires s2 == if count > 0 then Max(s1, BlocksFor((pos + count) / BLOCK_SIZE + 1)) else s1
    ensures Lasts(size, pos, count, Capacity(stock)) && s2 == Needs(s0, size, pos, count)
    ensures (Idle(size, pos, count) || stock != 1) && (Idle(size, pos, count) <==> count == 0 && pos <= size)
  {
    hide Max, BlocksFor;
    MaxStep(s0, pos / BLOCK_SIZE + 1, (pos + count) / BLOCK_SIZE + 1);
  }

  /** A call that failed in one of its parts. */
  lemma FailsInPart(size: nat, pos: nat, count: nat, stock: nat)
    requires (pos > size && Capacity(stock) <= pos) || (count > 0 && Capacity(stock) <= pos + count)
    ensures !Lasts(size, pos, count, Capacity(stock)) && !Idle(size, pos, count)
  {
  }

  /** The 32-bit step count of a gap is exact as long as the gap is below 2^41 bytes. */
  lemma GapSteps(gap: nat)
    requires gap < GAP_LIMIT
    ensures gap == BLOCK_SIZE * (gap / BLOCK_SIZE % WORD_LIMIT) + gap % BLOCK_SIZE
  {
  }

  datatype Whence = SeekSet | SeekCur | SeekEnd | SeekOther

  /** Where klseek moves to: unsigned 64-bit arithmetic, clamped for a relative seek only. */
  function SeekTo(size: nat, pos: nat, offset: int, whence: Whence): int {
    match whence
    case SeekSet => offset % POS_LIMIT
    case SeekCur => var p := (pos + offset) % POS_LIMIT; if p > SSIZE_MAX then SSIZE_MAX else p
    case SeekEnd => (size + offset) % POS_LIMIT
    case SeekOther => -1
  }

  /** Where that is: at the sum, if it lies in range; one turn further if it lies below 0, which
      a relative seek clamps like everything past SSIZE_MAX. */
  lemma SeekGoes(size: nat, pos: nat, offset: int)
    ensures 0 <= offset < POS_LIMIT ==> SeekTo(size, pos, offset, SeekSet) == offset
    ensures -POS_LIMIT <= offset < 0 ==> SeekTo(size, pos, offset, SeekSet) == POS_LIMIT + offset
    ensures 0 <= pos + offset <= SSIZE_MAX ==> SeekTo(size, pos, offset, SeekCur) == pos + offset
    ensures SSIZE_MAX < pos + offset < POS_LIMIT ==> SeekTo(size, pos, offset, SeekCur) == SSIZE_MAX
    ensures SSIZE_MAX - POS_LIMIT < pos + offset < 0 ==> SeekTo(size, pos, offset, SeekCur) == SSIZE_MAX
    ensures 0 <= size + offset < POS_LIMIT ==> SeekTo(size, pos, offset, SeekEnd) == size + offset
    ensures -POS_LIMIT <= size + offset < 0 ==> SeekTo(size, pos, offset, SeekEnd) == POS_LIMIT + size + offset
  {
    Wraps(offset);
    Wraps(pos + offset);
    Wraps(size + offset);
  }

  lemma Wraps(x: int)
    ensures 0 <= x < POS_LIMIT ==> x % POS_LIMIT == x
    ensures -POS_LIMIT <= x < 0 ==> x % POS_LIMIT == x + POS_LIMIT
  {
  }
}
