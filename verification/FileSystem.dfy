// One directory with its files: creating, unlinking, and the sequences kopen, klseek, kwrite
// or kread, kclose together refine a map from names to byte sequences.
module FileSystems {
  import opened Blocks
  import opened Counting
  import opened BlockMaps
  import opened FileChain
  import opened AllocSpec
  import opened Allocation
  import opened Volumes
  import opened FileData
  import opened Releasing
  import opened DirSpec
  import opened Directories

  /** A closed file: its chain and its bytes. */
  datatype Kept = Kept(rep: Rep, bytes: seq<bv8>)

  /** What a name stands for: bytes, and the number of blocks that hold them. */
  datatype Node = Folder | Data(bytes: seq<bv8>, blocks: nat)

  ghost function NodeOf(k: Kept): Node {
    Data(k.bytes, |BlocksOf(k.rep)|)
  }

  /** A file on disk `d` whose blocks are live and none of them a map of its directory. */
  ghost predicate FileSound(node: InodeRecord, r: Rep, d: Disk, start: nat, live: set<nat>, maps: seq<nat>) {
    && (if node.next == INODE_NULL then r == Rep([], []) else Chain(d, node.next, r) && InUse(BlocksOf(r), start, live))
    && forall m :: m in maps ==> m !in BlocksOf(r)
  }

  /** The inode, the chain and the blocks on disk `d` hold the closed file `k`. */
  ghost predicate Holding(node: InodeRecord, k: Kept, d: Disk, start: nat, live: set<nat>, maps: seq<nat>) {
    && node.size == |k.bytes| && FileSound(node, k.rep, d, start, live, maps)
    && if node.next == INODE_NULL then k.bytes == []
       else HoldsBytes(d, k.rep.blks, k.bytes) && |k.bytes| < BLOCK_SIZE * |k.rep.blks|
  }

  ghost predicate FileOf(b: nat, l: seq<nat>, inodes: Inodes) {
    b in l && b in inodes && inodes[b].isFile
  }

  /** Every file listed is held, and no two share a block. */
  ghost predicate Store(l: seq<nat>, inodes: Inodes, files: map<nat, Kept>, d: Disk, start: nat, live: set<nat>,
                        maps: seq<nat>)
  {
    && (forall b :: FileOf(b, l, inodes) ==> b in files && Holding(inodes[b], files[b], d, start, live, maps))
    && (forall b, c :: FileOf(b, l, inodes) && FileOf(c, l, inodes) && b != c ==> Apart(files[b].rep, files[c].rep))
  }

  /** The entries have no hard links, and the directories among them are empty. */
  ghost predicate Plain(l: seq<nat>, inodes: Inodes) {
    forall b :: b in l && b in inodes ==>
      inodes[b].refcount == 0 && (inodes[b].isDirectory ==> inodes[b].next == INODE_NULL)
  }

  /** Block `x` is a map of the directory or belongs to a file of it. */
  ghost predicate Used(x: nat, l: seq<nat>, inodes: Inodes, files: map<nat, Kept>, maps: seq<nat>) {
    x in maps || exists b :: FileOf(b, l, inodes) && b in files && x in BlocksOf(files[b].rep)
  }

  /** Every block handed out is used. */
  ghost predicate NoLeak(l: seq<nat>, inodes: Inodes, files: map<nat, Kept>, start: nat, live: set<nat>,
                         maps: seq<nat>)
  {
    forall n :: n in live ==> Used(n + start, l, inodes, files, maps)
  }

  /** The files `l` lists are held on disk `d`, with all blocks in `live` used by them or `maps`. */
  ghost predicate Whole(l: seq<nat>, inodes: Inodes, files: map<nat, Kept>, d: Disk, start: nat, live: set<nat>,
                        maps: seq<nat>)
  {
    Store(l, inodes, files, d, start, live, maps) && Plain(l, inodes) && NoLeak(l, inodes, files, start, live, maps)
  }

  /** Every inode block handed out is that of the directory or of an entry. */
  ghost predicate NodesUsed(live: set<nat>, start: nat, self: nat, l: seq<nat>) {
    forall n :: n in live ==> n + start == self || n + start in l
  }

  ghost function NodeIn(b: nat, inodes: Inodes, files: map<nat, Kept>): Node {
    if b in inodes && inodes[b].isFile && b in files then NodeOf(files[b]) else Folder
  }

  /** What the names of the entries `l` stand for. */
  ghost function ViewOf(l: seq<nat>, inodes: Inodes, files: map<nat, Kept>): map<string, Node>
    requires Distinct(l, inodes)
  {
    map n | n in Names(l, inodes) :: NodeIn(Names(l, inodes)[n], inodes, files)
  }

  /** Rewriting one file changes what its name stands for, and no other. */
  lemma ViewWritten(l: seq<nat>, inodes: Inodes, inodes': Inodes, files: map<nat, Kept>, b: nat, k: Kept)
    requires Distinct(l, inodes) && FileOf(b, l, inodes)
    requires forall c :: c in l ==>
               c in inodes' && inodes'[c].path == inodes[c].path && inodes'[c].isFile == inodes[c].isFile
    ensures Distinct(l, inodes')
    ensures ViewOf(l, inodes', files[b := k]) == ViewOf(l, inodes, files)[inodes[b].path := NodeOf(k)]
  {
    hide Distinct, Names;
    NamesFrame(l, inodes, inodes');
    EntriesKnown(l, inodes);
    forall n | n in Names(l, inodes) ensures Names(l, inodes)[n] == b <==> n == inodes[b].path {
      EntryOf(l, inodes, n);
      NamesAt(l, inodes, b);
    }
    NamesAt(l, inodes, b);
    forall n | n in Names(l, inodes) && n != inodes[b].path
      ensures NodeIn(Names(l, inodes)[n], inodes', files[b := k]) == NodeIn(Names(l, inodes)[n], inodes, files)
    {
      EntryOf(l, inodes, n);
    }
  }

  lemma ViewKeys(l: seq<nat>, inodes: Inodes, files: map<nat, Kept>, n: string)
    requires Distinct(l, inodes)
    ensures n in ViewOf(l, inodes, files) <==> n in Names(l, inodes)
  {
  }

  lemma ViewAdded(l: seq<nat>, inodes: Inodes, files: map<nat, Kept>, l': seq<nat>, inodes': Inodes, b: nat, k: Kept,
                  name: string)
    requires Distinct(l, inodes) && Distinct(l', inodes') && b !in l && b in inodes'
    requires Names(l', inodes') == Names(l, inodes)[name := b]
    requires forall c :: c in l ==> c in inodes && c in inodes' && inodes'[c] == inodes[c]
    ensures ViewOf(l', inodes', files[b := k])
            == ViewOf(l, inodes, files)[name := if inodes'[b].isFile then NodeOf(k) else Folder]
  {
    hide Distinct, Names;
    forall n | n in Names(l, inodes) ensures Names(l, inodes)[n] in l {
      EntryOf(l, inodes, n);
    }
  }

  lemma ViewRemoved(l: seq<nat>, inodes: Inodes, files: map<nat, Kept>, l': seq<nat>, inodes': Inodes, name: string)
    requires Distinct(l, inodes) && Distinct(l', inodes')
    requires Names(l', inodes') == Names(l, inodes) - {name}
    requires forall c :: c in l ==> c in inodes && c in inodes' && inodes'[c] == inodes[c]
    ensures ViewOf(l', inodes', files) == ViewOf(l, inodes, files) - {name}
  {
    hide Distinct, Names;
    forall n | n in Names(l, inodes) ensures Names(l, inodes)[n] in l {
      EntryOf(l, inodes, n);
    }
  }

  /** What InodesKept says about the entries of a directory. */
  lemma OthersUnchanged(l: seq<nat>, inodes: Inodes, after: Inodes, id: InodeRecord)
    requires Distinct(l, inodes) && InodesKept(inodes, after, id)
    requires id.self in inodes && Identity(inodes[id.self]) == id
    ensures forall b :: b in l ==> b in inodes && b in after && (b != id.self ==> after[b] == inodes[b])
    ensures forall b :: b in l ==> after[b].path == inodes[b].path && after[b].isFile == inodes[b].isFile
  {
  }

  lemma EntriesKnown(l: seq<nat>, inodes: Inodes)
    requires Distinct(l, inodes)
    ensures forall b :: b in l ==> b in inodes
  {
  }

  // ----- what leaves a closed file alone -----

  lemma FileSoundGrown(node: InodeRecord, r: Rep, d: Disk, e: Disk, start: nat, live: set<nat>, more: set<nat>,
                       maps: seq<nat>, after: seq<nat>)
    requires FileSound(node, r, d, start, live, maps) && live <= more
    requires KeptBlocks(d, e, start, live, maps) && OursOrFresh(after, start, live, maps)
    ensures FileSound(node, r, e, start, more, after)
  {
    hide Chain, BlockAt;
    if node.next != INODE_NULL {
      assert forall b :: b in r.maps ==> b in BlocksOf(r);
      ChainFrame(d, e, node.next, r);
    }
  }

  lemma FileSoundFreed(node: InodeRecord, r: Rep, d: Disk, e: Disk, start: nat, live: set<nat>, maps: seq<nat>,
                       after: seq<nat>, freed: seq<nat>)
    requires FileSound(node, r, d, start, live, maps) && KeptOutside(d, e, start, maps)
    requires forall b :: b in BlocksOf(r) ==> b !in freed
    requires forall m :: m in after ==> m in maps
    ensures FileSound(node, r, e, start, LiveWithout(live, start, freed), after)
  {
    hide Chain;
    if node.next != INODE_NULL {
      ChainKept(d, e, start, live, node.next, r, maps);
    }
  }

  lemma HoldingGrown(node: InodeRecord, k: Kept, d: Disk, e: Disk, start: nat, live: set<nat>, more: set<nat>,
                     maps: seq<nat>, after: seq<nat>)
    requires Holding(node, k, d, start, live, maps) && live <= more
    requires KeptBlocks(d, e, start, live, maps) && OursOrFresh(after, start, live, maps)
    ensures Holding(node, k, e, start, more, after)
  {
    FileSoundGrown(node, k.rep, d, e, start, live, more, maps, after);
    hide Chain, HoldsBytes, BlockAt;
    if node.next != INODE_NULL {
      assert forall b :: b in k.rep.blks ==> b in BlocksOf(k.rep);
      BytesFrame(d, e, k.rep.blks, k.bytes);
    }
  }

  lemma HoldingFreed(node: InodeRecord, k: Kept, d: Disk, e: Disk, start: nat, live: set<nat>, maps: seq<nat>,
                     after: seq<nat>, freed: seq<nat>)
    requires Holding(node, k, d, start, live, maps) && KeptOutside(d, e, start, maps)
    requires forall b :: b in BlocksOf(k.rep) ==> b !in freed
    requires forall m :: m in after ==> m in maps
    ensures Holding(node, k, e, start, LiveWithout(live, start, freed), after)
  {
    FileSoundFreed(node, k.rep, d, e, start, live, maps, after, freed);
    hide Chain, HoldsBytes, BlockAt;
    if node.next != INODE_NULL {
      assert forall b :: b in k.rep.blks ==> b in BlocksOf(k.rep);
      BytesFrame(d, e, k.rep.blks, k.bytes);
    }
  }

  lemma HoldingBeside(node: InodeRecord, k: Kept, alloc: Allocator, d: Disk, e: Disk, live: set<nat>, more: set<nat>,
                      maps: seq<nat>, r0: Rep, r1: Rep)
    requires Holding(node, k, d, alloc.regionStart, live, maps)
    requires Grown(alloc, d, e, live, more, r0, r1) && Apart(k.rep, r0)
    ensures Holding(node, k, e, alloc.regionStart, more, maps) && Apart(k.rep, r1) && Apart(r1, k.rep)
  {
    hide Chain, HoldsBytes, BlockAt, KeptBlocks, RestSame;
    if node.next != INODE_NULL {
      Isolation(alloc, d, e, live, more, r0, r1, node.next, k.rep, k.bytes);
    }
  }

  // ----- one step of the whole store -----

  lemma StoreCreated(l: seq<nat>, inodes: Inodes, files: map<nat, Kept>, d: Disk, start: nat, live: set<nat>,
                     maps: seq<nat>,
                     l': seq<nat>, inodes': Inodes, d': Disk, live': set<nat>, maps': seq<nat>, block: nat)
    requires Store(l, inodes, files, d, start, live, maps) && OneMore(l, block, l') && block !in l
    requires forall b :: b in l ==> b in inodes && b in inodes' && inodes'[b] == inodes[b]
    requires block in inodes' && inodes'[block].next == INODE_NULL && inodes'[block].size == 0
    requires live <= live' && OursOrFresh(maps', start, live, maps) && KeptBlocks(d, d', start, live, maps)
    ensures Store(l', inodes', files[block := Kept(Rep([], []), [])], d', start, live', maps')
  {
    hide Holding, KeptBlocks, OursOrFresh;
    forall b | FileOf(b, l', inodes')
      ensures var files' := files[block := Kept(Rep([], []), [])];
              b in files' && Holding(inodes'[b], files'[b], d', start, live', maps')
    {
      if b == block {
        EmptyHeld(inodes'[b], d', start, live', maps');
      } else {
        assert FileOf(b, l, inodes);
        HoldingGrown(inodes[b], files[b], d, d', start, live, live', maps, maps');
      }
    }
    assert forall b :: FileOf(b, l', inodes') && b != block ==> FileOf(b, l, inodes);
  }

  lemma EmptyHeld(node: InodeRecord, d: Disk, start: nat, live: set<nat>, maps: seq<nat>)
    requires node.next == INODE_NULL && node.size == 0
    ensures Holding(node, Kept(Rep([], []), []), d, start, live, maps)
  {
  }

  lemma StoreRemoved(l: seq<nat>, inodes: Inodes, files: map<nat, Kept>, d: Disk, start: nat, live: set<nat>,
                     maps: seq<nat>,
                     l': seq<nat>, inodes': Inodes, d': Disk, maps': seq<nat>, gone: nat, freed: seq<nat>)
    requires Store(l, inodes, files, d, start, live, maps) && OneMore(l', gone, l) && gone !in l'
    requires forall b :: b in l ==> b in inodes && b in inodes' && inodes'[b] == inodes[b]
    requires forall b :: b in freed ==> b in maps || (FileOf(gone, l, inodes) && b in BlocksOf(files[gone].rep))
    requires KeptOutside(d, d', start, maps) && forall m :: m in maps' ==> m in maps
    ensures Store(l', inodes', files, d', start, LiveWithout(live, start, freed), maps')
  {
    hide KeptOutside, LiveWithout, Chain, HoldsBytes;
    forall b | FileOf(b, l', inodes')
      ensures b in files && Holding(inodes'[b], files[b], d', start, LiveWithout(live, start, freed), maps')
    {
      assert FileOf(b, l, inodes) && b != gone;
      HoldingFreed(inodes[b], files[b], d, d', start, live, maps, maps', freed);
    }
    assert forall b :: FileOf(b, l', inodes') ==> FileOf(b, l, inodes);
  }

  /** A call on file `f` leaves every other file as it was and apart from `f`, whose blocks
      are those of `r` now. */
  lemma OthersHeld(l: seq<nat>, inodes: Inodes, files: map<nat, Kept>, alloc: Allocator, d: Disk, live: set<nat>,
                   maps: seq<nat>,
                   inodes': Inodes, d': Disk, live': set<nat>, f: nat, r: Rep)
    requires Store(l, inodes, files, d, alloc.regionStart, live, maps) && FileOf(f, l, inodes)
    requires forall b :: b in l ==> b in inodes && b in inodes' && (b != f ==> inodes'[b] == inodes[b])
    requires Grown(alloc, d, d', live, live', files[f].rep, r)
    ensures forall b :: FileOf(b, l, inodes') && b != f ==>
              && FileOf(b, l, inodes) && b in files && Holding(inodes'[b], files[b], d', alloc.regionStart, live', maps)
              && Apart(files[b].rep, r) && Apart(r, files[b].rep)
  {
    hide Holding, Grown;
    forall b | FileOf(b, l, inodes') && b != f
      ensures FileOf(b, l, inodes) && b in files && Holding(inodes'[b], files[b], d', alloc.regionStart, live', maps)
      ensures Apart(files[b].rep, r) && Apart(r, files[b].rep)
    {
      assert FileOf(b, l, inodes);
      HoldingBeside(inodes[b], files[b], alloc, d, d', live, live', maps, files[f].rep, r);
    }
  }

  /** A call on file `f` and its close: `k` is what it holds now. */
  lemma StoreWritten(l: seq<nat>, inodes: Inodes, files: map<nat, Kept>, alloc: Allocator, d: Disk, live: set<nat>,
                     maps: seq<nat>,
                     inodes': Inodes, d': Disk, live': set<nat>, f: nat, k: Kept)
    requires Store(l, inodes, files, d, alloc.regionStart, live, maps) && FileOf(f, l, inodes)
    requires forall b :: b in l ==> b in inodes && b in inodes' && (b != f ==> inodes'[b] == inodes[b])
    requires Grown(alloc, d, d', live, live', files[f].rep, k.rep)
    requires Holding(inodes'[f], k, d', alloc.regionStart, live', maps)
    ensures Store(l, inodes', files[f := k], d', alloc.regionStart, live', maps)
  {
    hide Holding, Grown;
    OthersHeld(l, inodes, files, alloc, d, live, maps, inodes', d', live', f, k.rep);
  }

  // ----- nothing leaks -----

  lemma NoLeakCreated(l: seq<nat>, inodes: Inodes, files: map<nat, Kept>, start: nat, live: set<nat>, maps: seq<nat>,
                      l': seq<nat>, inodes': Inodes, live': set<nat>, maps': seq<nat>, block: nat, k: Kept)
    requires NoLeak(l, inodes, files, start, live, maps) && OneMore(l, block, l') && block !in l
    requires forall b :: b in l ==> b in inodes && b in inodes' && inodes'[b] == inodes[b]
    requires maps <= maps' && LiveFor(start, live, live', maps')
    ensures NoLeak(l', inodes', files[block := k], start, live', maps')
  {
    forall n | n in live' ensures Used(n + start, l', inodes', files[block := k], maps') {
      if n in live {
        assert Used(n + start, l, inodes, files, maps);
        if b :| FileOf(b, l, inodes) && b in files && n + start in BlocksOf(files[b].rep) {
          assert FileOf(b, l', inodes') && files[block := k][b] == files[b];
        }
      }
    }
  }

  /** A removal gives back all that the entry `gone` used, and keeps what the others use. */
  lemma NoLeakRemoved(l: seq<nat>, inodes: Inodes, files: map<nat, Kept>, start: nat, live: set<nat>, maps: seq<nat>,
                      l': seq<nat>, inodes': Inodes, maps': seq<nat>, gone: nat, freed: seq<nat>)
    requires NoLeak(l, inodes, files, start, live, maps) && OneMore(l', gone, l)
    requires forall b :: b in l ==> b in inodes && b in inodes' && inodes'[b] == inodes[b]
    requires FileOf(gone, l, inodes) && gone in files ==> forall b :: b in BlocksOf(files[gone].rep) ==> b in freed
    requires forall m :: m in maps ==> m in maps' || m in freed
    ensures NoLeak(l', inodes', files, start, LiveWithout(live, start, freed), maps')
  {
    forall n | n in LiveWithout(live, start, freed) ensures Used(n + start, l', inodes', files, maps') {
      assert Used(n + start, l, inodes, files, maps);
      if b :| FileOf(b, l, inodes) && b in files && n + start in BlocksOf(files[b].rep) {
        assert b != gone ==> FileOf(b, l', inodes');
      }
    }
  }

  lemma NoLeakWritten(l: seq<nat>, inodes: Inodes, files: map<nat, Kept>, start: nat, live: set<nat>, maps: seq<nat>,
                      inodes': Inodes, live': set<nat>, f: nat, k: Kept)
    requires NoLeak(l, inodes, files, start, live, maps) && FileOf(f, l, inodes) && f in files
    requires forall b :: b in l ==> b in inodes && b in inodes' && inodes'[b].isFile == inodes[b].isFile
    requires files[f].rep.maps <= k.rep.maps && files[f].rep.blks <= k.rep.blks
    requires LiveFor(start, live, live', BlocksOf(k.rep))
    ensures NoLeak(l, inodes', files[f := k], start, live', maps)
  {
    var after := files[f := k];
    assert forall x :: x in BlocksOf(files[f].rep) ==> x in BlocksOf(k.rep);
    assert FileOf(f, l, inodes') && f in after && after[f] == k;
    forall n | n in live' ensures Used(n + start, l, inodes', after, maps) {
      if n in live {
        assert Used(n + start, l, inodes, files, maps);
        if b :| FileOf(b, l, inodes) && b in files && n + start in BlocksOf(files[b].rep) {
          assert FileOf(b, l, inodes') && b in after;
        }
      }
    }
  }

  lemma NodesCreated(live: set<nat>, start: nat, self: nat, l: seq<nat>, l': seq<nat>, block: nat)
    requires NodesUsed(live, start, self, l) && OneMore(l, block, l') && block >= start
    ensures NodesUsed(live + {block - start}, start, self, l')
  {
  }

  lemma NodesRemoved(live: set<nat>, start: nat, self: nat, l: seq<nat>, l': seq<nat>, gone: nat)
    requires NodesUsed(live, start, self, l) && OneMore(l', gone, l) && gone >= start
    ensures NodesUsed(live - {gone - start}, start, self, l')
  {
  }

  lemma PlainCreated(l: seq<nat>, inodes: Inodes, l': seq<nat>, inodes': Inodes, block: nat)
    requires Plain(l, inodes) && OneMore(l, block, l')
    requires forall b :: b in l ==> b in inodes && b in inodes' && inodes'[b] == inodes[b]
    requires block in inodes' && inodes'[block].refcount == 0 && inodes'[block].next == INODE_NULL
    ensures Plain(l', inodes')
  {
  }

  lemma PlainRemoved(l: seq<nat>, inodes: Inodes, l': seq<nat>, inodes': Inodes, gone: nat)
    requires Plain(l, inodes) && OneMore(l', gone, l)
    requires forall b :: b in l ==> b in inodes && b in inodes' && inodes'[b] == inodes[b]
    ensures Plain(l', inodes')
  {
  }

  lemma PlainWritten(l: seq<nat>, inodes: Inodes, inodes': Inodes, id: InodeRecord)
    requires Plain(l, inodes) && InodesKept(inodes, inodes', id)
    requires id.self in inodes && Identity(inodes[id.self]) == id && id.isFile && !id.isDirectory
    requires forall b :: b in l ==> b in inodes
    ensures Plain(l, inodes')
  {
  }

  lemma UsedIsLive(x: nat, l: seq<nat>, inodes: Inodes, files: map<nat, Kept>, d: Disk, start: nat, live: set<nat>,
                   maps: seq<nat>)
    requires Store(l, inodes, files, d, start, live, maps) && forall m :: m in maps ==> m >= start && m - start in live
    ensures Used(x, l, inodes, files, maps) ==> x >= start && x - start in live
  {
    hide Chain, HoldsBytes;
    if b :| FileOf(b, l, inodes) && b in files && x in BlocksOf(files[b].rep) {
      assert Holding(inodes[b], files[b], d, start, live, maps);
    }
  }

  lemma LiveIsUsed(x: nat, l: seq<nat>, inodes: Inodes, files: map<nat, Kept>, start: nat, live: set<nat>,
                   maps: seq<nat>)
    requires NoLeak(l, inodes, files, start, live, maps)
    ensures x >= start && x - start in live ==> Used(x, l, inodes, files, maps)
  {
    hide Used;
    assert x >= start && x - start in live ==> Used(x - start + start, l, inodes, files, maps);
  }

  lemma NodeIsUsed(x: nat, live: set<nat>, start: nat, self: nat, l: seq<nat>)
    requires NodesUsed(live, start, self, l)
    ensures x >= start && x - start in live ==> x == self || x in l
  {
    assert x >= start && x - start in live ==> x - start + start == x;
  }

  /** The blocks that an allocator numbers from `start` on. */
  ghost function BlocksFrom(live: set<nat>, start: nat): set<nat> {
    set n | n in live :: n + start
  }

  lemma FromHas(live: set<nat>, start: nat, x: nat)
    ensures x in BlocksFrom(live, start) <==> x >= start && x - start in live
  {
    if x >= start && x - start in live {
      assert x == x - start + start;
    }
  }

  lemma {:induction false} FromCount(live: set<nat>, start: nat)
    ensures |BlocksFrom(live, start)| == |live|
  {
    hide BlocksFrom;
    if live == {} {
      forall x ensures x !in BlocksFrom(live, start) {
        FromHas(live, start, x);
      }
    } else {
      var n :| n in live;
      FromCount(live - {n}, start);
      forall x ensures x in BlocksFrom(live, start) <==> x in BlocksFrom(live - {n}, start) || x == n + start {
        FromHas(live, start, x);
        FromHas(live - {n}, start, x);
      }
      FromHas(live - {n}, start, n + start);
      assert BlocksFrom(live, start) == BlocksFrom(live - {n}, start) + {n + start};
    }
  }

  /** One inode block for the directory and one for each entry. */
  lemma NodesCounted(live: set<nat>, start: nat, self: nat, l: seq<nat>)
    requires NodesUsed(live, start, self, l) && NoDup(l) && self !in l && self >= start && self - start in live
    requires forall b :: b in l ==> b >= start && b - start in live
    ensures |live| == |l| + 1
  {
    hide NodesUsed, BlocksFrom, NoDup, Elements;
    FromCount(live, start);
    ElementCount(l);
    ElementsHave(l, self);
    forall x ensures x in BlocksFrom(live, start) <==> x in Elements(l) + {self} {
      FromHas(live, start, x);
      ElementsHave(l, x);
      NodeIsUsed(x, live, start, self, l);
    }
    assert BlocksFrom(live, start) == Elements(l) + {self};
  }

  lemma OneNameLess(v: map<string, Node>, name: string)
    requires name in v
    ensures |v - {name}| + 1 == |v|
  {
    assert v == (v - {name})[name := v[name]];
  }

  function BlocksIn(node: Node): nat {
    if node.Data? then node.blocks else 0
  }

  lemma OneOnly(maps: seq<Word>, grid: Grid, b: nat)
    requires |maps| == |grid|
    ensures |OnlyMaps(maps, grid, b)| <= 1 && forall m :: m in OnlyMaps(maps, grid, b) ==> m in maps
  {
  }

  lemma BlocksDiffer(r: Rep)
    requires r == Rep([], []) || WellShaped(r)
    ensures NoDup(BlocksOf(r))
  {
    forall i, j | 0 <= i < j < |BlocksOf(r)| ensures BlocksOf(r)[i] != BlocksOf(r)[j] {
      assert i < |r.maps| ==> r.maps[i] in r.maps;
      assert j >= |r.maps| ==> r.blks[j - |r.maps|] in r.blks;
    }
  }

  lemma DifferTogether(bs: seq<nat>, cs: seq<nat>)
    requires NoDup(bs) && |cs| <= 1 && forall c :: c in cs ==> c !in bs
    ensures NoDup(bs + cs)
  {
    forall i, j | 0 <= i < j < |bs + cs| ensures (bs + cs)[i] != (bs + cs)[j] {
      if j == |bs| {
        assert cs[0] in cs && bs[i] in bs;
      }
    }
  }

  lemma SameWithout(live: set<nat>, start: nat, bs: seq<nat>, cs: seq<nat>)
    requires forall b :: b in bs <==> b in cs
    ensures LiveWithout(live, start, bs) == LiveWithout(live, start, cs)
  {
  }

  lemma NoEntries(dir: Directory)
    requires dir.Valid() && dir.Contents() == map[]
    ensures Listing(dir.grid) == []
  {
    if Listing(dir.grid) != [] {
      NamesAt(Listing(dir.grid), dir.vol.inodes, Listing(dir.grid)[0]);
    }
  }

  class FileSystem {
    const vol: Volume
    const dir: Directory
    ghost var files: map<nat, Kept>

    constructor (dir: Directory)
      requires dir.Valid() && dir.Contents() == map[]
      requires dir.data.live == {} && dir.nodes.live == {dir.self - dir.nodes.regionStart} && dir.Counted()
      ensures this.dir == dir && vol == dir.vol && Valid() && View() == map[]
    {
      vol, this.dir, files := dir.vol, dir, map[];
      new;
      NoEntries(dir);
    }

    ghost predicate Valid()
      reads this, dir, dir.vol, dir.data, dir.nodes, dir.data.window, dir.nodes.window
    {
      && dir.vol == vol && dir.Valid() && dir.Counted()
      && Whole(Listing(dir.grid), vol.inodes, files, vol.blocks, dir.data.regionStart, dir.data.live, dir.maps)
      && NodesUsed(dir.nodes.live, dir.nodes.regionStart, dir.self, Listing(dir.grid))
    }

    /** The blocks and inodes in use are exactly those of the directory, its entries and their
        files: nothing is lost, whatever has been done. */
    lemma InUseExactly(x: nat)
      requires Valid()
      ensures dir.data.IsLive(x) <==> Used(x, Listing(dir.grid), vol.inodes, files, dir.maps)
      ensures dir.nodes.IsLive(x) <==> x == dir.self || x in Listing(dir.grid)
    {
      hide Store, Listing, NoLeak, NodesUsed, Used;
      dir.ListedFacts();
      dir.MapsLive();
      UsedIsLive(x, Listing(dir.grid), vol.inodes, files, vol.blocks, dir.data.regionStart, dir.data.live, dir.maps);
      LiveIsUsed(x, Listing(dir.grid), vol.inodes, files, dir.data.regionStart, dir.data.live, dir.maps);
      NodeIsUsed(x, dir.nodes.live, dir.nodes.regionStart, dir.self, Listing(dir.grid));
    }

    /** With maps of one block, what can still be allocated is told by what is there: an inode
        block is left exactly if the directory has less than 511 entries. */
    lemma RoomsAreRest()
      requires Valid()
      ensures dir.data.mapEnd - dir.data.mapStart == 1 ==> dir.data.Room() + |dir.data.live| == BITS
      ensures dir.nodes.mapEnd - dir.nodes.mapStart == 1 ==>
                && dir.nodes.Room() + |View()| + 1 == BITS
                && (dir.nodes.Exhausted() <==> |View()| == BITS - 1)
    {
      hide Whole, Listing, Allocator.IsExact, Safe, DirChain, Names, Distinct;
      dir.ListedFacts();
      NamesCount(Listing(dir.grid), vol.inodes);
      NodesCounted(dir.nodes.live, dir.nodes.regionStart, dir.self, Listing(dir.grid));
      if dir.data.mapEnd - dir.data.mapStart == 1 {
        dir.data.RoomIsRest();
      }
      if dir.nodes.mapEnd - dir.nodes.mapStart == 1 {
        dir.nodes.RoomIsRest();
      }
      assert View().Keys == Names(Listing(dir.grid), vol.inodes).Keys;
    }

    /** No slot is free exactly if every map has 127 entries. */
    lemma SlotsTaken()
      requires Valid()
      ensures NoSlotHolds(dir.grid, INODE_NULL) <==> |View()| == BMAP_BLOCKS * |dir.maps|
    {
      hide Whole, Listing, Safe, DirChain, Names, Distinct, NoSlotHolds;
      dir.ListedFacts();
      NamesCount(Listing(dir.grid), vol.inodes);
      SlotsCounted(dir.grid);
      assert View().Keys == Names(Listing(dir.grid), vol.inodes).Keys;
    }

    /** What every name stands for. */
    ghost function View(): map<string, Node>
      requires Valid()
      reads this, dir, dir.vol, dir.data, dir.nodes, dir.data.window, dir.nodes.window
    {
      dir.ListedFacts();
      ViewOf(Listing(dir.grid), vol.inodes, files)
    }

    /** The file system is valid, and its names stand for `v`. */
    ghost predicate Stands(v: map<string, Node>)
      reads this, dir, dir.vol, dir.data, dir.nodes, dir.data.window, dir.nodes.window
    {
      Valid() && View() == v
    }

    ghost predicate IsFile(name: string)
      reads this, dir, dir.vol, dir.data, dir.nodes, dir.data.window, dir.nodes.window
    {
      Valid() && name in View() && View()[name].Data?
    }

    ghost function FileAt(name: string): (n: Node)
      requires IsFile(name)
      reads this, dir, dir.vol, dir.data, dir.nodes, dir.data.window, dir.nodes.window
      ensures n.Data?
    {
      View()[name]
    }

    lemma NamedFile(n: string)
      requires Valid() && n in View() && View()[n].Data?
      ensures var b := dir.Contents()[n];
              && n in dir.Contents() && FileOf(b, Listing(dir.grid), vol.inodes) && b in files
              && NodeOf(files[b]) == View()[n] && b != dir.self && vol.inodes[b].self == b
              && b < dir.data.regionStart
              && Holding(vol.inodes[b], files[b], vol.blocks, dir.data.regionStart, dir.data.live, dir.maps)
    {
      hide Listing, Names, Distinct, DirChain, NoEmptyRow, Chain, HoldsBytes, Holding, NoLeak, NodesUsed,
        Directory.Mounted, Directory.Linked, Allocator.Valid;
      dir.ListedFacts();
      dir.MapsLive();
    }

    /** A create would link a map and find no inode block for it: the name is new, no slot is
        free, and of the allocators only the one for inodes is exhausted. */
    ghost predicate Strands(name: string)
      requires Valid()
      reads this, dir, dir.vol, dir.data, dir.nodes, dir.data.window, dir.nodes.window
    {
      name !in View() && NoSlotHolds(dir.grid, INODE_NULL) && !dir.data.Exhausted() && dir.nodes.Exhausted()
    }

    /** Strands, decided before the call. */
    method WouldStrand(name: string) returns (strands: bool)
      requires Valid()
      ensures strands <==> Strands(name)
    {
      hide Whole, NodesUsed, Listing, Directory.Represents, Directory.Mounted, ViewOf, Names, Allocator.Room;
      dir.ListedFacts();
      dir.HasShape();
      ViewKeys(Listing(dir.grid), vol.inodes, files, name);
      var found := dir.Find(name);
      if found != INODE_NULL {
        return false;
      }
      var full := true;
      if vol.inodes[dir.self].next != INODE_NULL {
        var _, _, s, _ := dir.FindSlot(INODE_NULL);
        full := s == BMAP_BLOCKS;
      }
      var data := dir.data.RoomLeft();
      var nodes := dir.nodes.RoomLeft();
      strands := full && data > 0 && nodes == 0;
    }

    /** inode_create: the name stands for an empty file or directory; others stay. */
    method Create(name: string, isDirectory: bool) returns (r: Created)
      requires Valid()
      modifies this, dir`maps, dir`grid, vol, dir.data, dir.data.window, dir.nodes, dir.nodes.window
      ensures r == Exists <==> name in old(View())
      ensures r == NoNode <==>
                name !in old(View()) && !old(NoSlotHolds(dir.grid, INODE_NULL)) && old(dir.nodes.Exhausted())
      ensures r == NoMap <==>
                name !in old(View()) && old(NoSlotHolds(dir.grid, INODE_NULL)) && old(dir.data.Exhausted())
      ensures r.Stranded? <==> old(Strands(name))
      ensures r.Made? ==> Valid() && View() == old(View())[name := if isDirectory then Folder else Data([], 0)]
      ensures r == Exists || r == NoNode || r == NoMap ==>
                Valid() && View() == old(View()) && SameDirectory(old(dir.maps), old(dir.grid), old(dir.Contents()))
      ensures r.Made? ==>
                if old(NoSlotHolds(dir.grid, INODE_NULL)) then RowAdded(old(dir.grid), dir.grid, r.block)
                else FirstFilled(old(dir.grid), dir.grid, r.block)
      ensures r.Made? ==> |dir.maps| == |old(dir.maps)| + if old(NoSlotHolds(dir.grid, INODE_NULL)) then 1 else 0
      ensures dir.Took(old(dir.RoomsNow()), if r.Stranded? || |dir.maps| > |old(dir.maps)| then 1 else 0,
                if r.Made? then 1 else 0)
    {
      hide Allocator.Room, Allocator.IsExact, Store, Plain, NoLeak, NodesUsed, Listing, KeptBlocks, OneMore,
        Directory.Represents, Directory.Mounted, Directory.Attached, Names, ViewOf, Distinct, LiveFor;
      dir.ListedFacts();
      ViewKeys(Listing(dir.grid), vol.inodes, files, name);
      r := dir.Create(name, isDirectory);
      if r.Made? {
        ghost var k := Kept(Rep([], []), []);
        StoreCreated(old(Listing(dir.grid)), old(vol.inodes), files, old(vol.blocks), dir.data.regionStart,
          old(dir.data.live), old(dir.maps), Listing(dir.grid), vol.inodes, vol.blocks, dir.data.live, dir.maps,
            r.block);
        NoLeakCreated(old(Listing(dir.grid)), old(vol.inodes), files, dir.data.regionStart, old(dir.data.live),
          old(dir.maps),
          Listing(dir.grid), vol.inodes, dir.data.live, dir.maps, r.block, k);
        PlainCreated(old(Listing(dir.grid)), old(vol.inodes), Listing(dir.grid), vol.inodes, r.block);
        dir.ListedFacts();
        dir.Lists(r.block, name);
        NodesCreated(old(dir.nodes.live), dir.nodes.regionStart, dir.self, old(Listing(dir.grid)), Listing(dir.grid),
          r.block);
        ViewAdded(old(Listing(dir.grid)), old(vol.inodes), files, Listing(dir.grid), vol.inodes, r.block, k, name);
        files := files[r.block := k];
      }
    }

    /** The directory has the same maps, slots and entries. */
    ghost predicate SameDirectory(maps: seq<Word>, grid: Grid, contents: map<string, nat>)
      reads dir, dir.vol, dir.data, dir.nodes, dir.data.window, dir.nodes.window
    {
      dir.Valid() && dir.maps == maps && dir.grid == grid && dir.Contents() == contents
    }

    /** kunlink: the name is gone and the others stay, unless it was the only entry of the
        first of several maps. */
    method Unlink(name: string) returns (r: Removed)
      requires Valid()
      modifies this, dir`maps, dir`grid, vol, dir.data, dir.data.window, dir.nodes, dir.nodes.window
      ensures r == if name in old(View()) then Gone else Missing
      ensures r == Missing ==>
                && Valid() && View() == old(View()) && SameDirectory(old(dir.maps), old(dir.grid), old(dir.Contents()))
                && dir.Took(old(dir.RoomsNow()), 0, 0)
      ensures r == Gone ==> (Valid() <==> !old(dir.EmptiesHead(name)))
      ensures r == Gone && !old(dir.EmptiesHead(name)) ==>
                && View() == old(View()) - {name} && |dir.maps| <= |old(dir.maps)| <= |dir.maps| + 1
                && TakenOff(old(Listing(dir.grid)), old(dir.Contents()[name]), Listing(dir.grid))
                && TakenOut(old(dir.maps), old(dir.grid), old(dir.Contents()[name]), dir.maps, dir.grid)
                && (dir.nodes.mapEnd - dir.nodes.mapStart == 1 ==> dir.nodes.Room() == old(dir.nodes.Room()) + 1)
                && (dir.data.mapEnd - dir.data.mapStart == 1 ==>
                     dir.data.Room() + |dir.maps| == old(dir.data.Room() + |dir.maps| + BlocksIn(View()[name])))
    {
      hide Directory.Took, Entries, WellMade, Directory.Placed, TakesNext, TakenOut, TakenOff, Used, Allocator.Valid,
        DirChain, OnlyMaps, Compact, BlocksOf, FileOf, Store, Plain, NoLeak, NodesUsed, Listing, KeptOutside, OneMore,
        Directory.Mounted, Directory.Represents, Names, ViewOf, Distinct, LiveWithout, OnDisk, Exact, Free, Freed,
        Allocator.Room, Directory.GivenBack, Directory.EmptiesHead;
      dir.ListedFacts();
      ViewKeys(Listing(dir.grid), vol.inodes, files, name);
      ghost var held := if name in dir.Contents() && dir.Contents()[name] in files
                                                then files[dir.Contents()[name]].rep else Rep([], []);
      TargetIsHeld(name, held);
      RoomsAreRest();
      if name in dir.Contents() {
        GivenBackCount(name, held);
      }
      r := dir.Remove(name, held);
      if r == Gone && !old(dir.EmptiesHead(name)) {
        ghost var gone, freed := old(dir.Contents()[name]), old(dir.GivenBack(name, held));
        FreedState(dir.data, old(dir.data.state), old(dir.data.live), freed);
        StoreRemoved(old(Listing(dir.grid)), old(vol.inodes), files, old(vol.blocks), dir.data.regionStart,
          old(dir.data.live), old(dir.maps),
          Listing(dir.grid), vol.inodes, vol.blocks, dir.maps, gone, freed);
        NoLeakRemoved(old(Listing(dir.grid)), old(vol.inodes), files, dir.data.regionStart, old(dir.data.live),
          old(dir.maps),
          Listing(dir.grid), vol.inodes, dir.maps, gone, freed);
        PlainRemoved(old(Listing(dir.grid)), old(vol.inodes), Listing(dir.grid), vol.inodes, gone);
        NodesRemoved(old(dir.nodes.live), dir.nodes.regionStart, dir.self, old(Listing(dir.grid)), Listing(dir.grid),
          gone);
        dir.ListedFacts();
        ViewRemoved(old(Listing(dir.grid)), old(vol.inodes), files, Listing(dir.grid), vol.inodes, name);
        RoomsAreRest();
        OneNameLess(old(View()), name);
      }
    }

    /** What Unlink gives back, counted. */
    lemma GivenBackCount(name: string, held: Rep)
      requires Valid() && name in dir.Contents()
      requires dir.Entry(name).isFile ==>
                 && OnDisk(vol, dir.data, dir.Entry(name).next, held)
                 && (forall b :: b in dir.maps ==> b !in BlocksOf(held))
                 && dir.Contents()[name] in files && held == files[dir.Contents()[name]].rep
      ensures name in View() && |OnlyMaps(dir.maps, dir.grid, dir.Contents()[name])| <= 1
      ensures var n := BlocksIn(View()[name]) + |OnlyMaps(dir.maps, dir.grid, dir.Contents()[name])|;
              |LiveWithout(dir.data.live, dir.data.regionStart, dir.GivenBack(name, held))| + n == |dir.data.live|
    {
      hide Whole, Listing, DirChain, Released, LiveWithout, OnlyMaps, NodesUsed, Names;
      dir.HasShape();
      dir.MapsLive();
      dir.ListedFacts();
      var only := OnlyMaps(dir.maps, dir.grid, dir.Contents()[name]);
      OneOnly(dir.maps, dir.grid, dir.Contents()[name]);
      var all := only;
      if dir.Entry(name).isFile {
        RepShape(vol.blocks, dir.Entry(name).next, held);
        ReleasedAll(held);
        BlocksDiffer(held);
        all := BlocksOf(held) + only;
        DifferTogether(BlocksOf(held), only);
      }
      SameWithout(dir.data.live, dir.data.regionStart, all, dir.GivenBack(name, held));
      WithoutCount(dir.data.live, dir.data.regionStart, all);
    }

    /** Whether Unlink would leave the directory invalid. */
    method WouldBreak(name: string) returns (risk: bool)
      requires Valid()
      ensures risk <==> dir.EmptiesHead(name)
      ensures risk ==> name in View()
    {
      dir.ListedFacts();
      risk := dir.AtRisk(name);
    }

    lemma RiskNeedsMaps(name: string)
      requires Valid() && dir.EmptiesHead(name)
      ensures |dir.maps| > 1 && name in View()
    {
      hide Whole, Listing, DirChain, Compact;
      dir.ListedFacts();
    }

    method DataLeft() returns (n: nat)
      requires Valid()
      ensures n == dir.data.Room()
    {
      hide Whole, Listing, DirChain, Allocator.Room;
      dir.HasShape();
      n := dir.data.RoomLeft();
    }

    /** What Unlink gives back of an entry: all its blocks, and perhaps a map. */
    lemma TargetIsHeld(name: string, held: Rep)
      requires Valid()
      requires held == if name in dir.Contents() && dir.Contents()[name] in files then files[dir.Contents()[name]].rep
                       else Rep([], [])
      ensures name in dir.Contents() && dir.Entry(name).isFile ==>
                && OnDisk(vol, dir.data, dir.Entry(name).next, held) && forall b :: b in dir.maps ==>
                  b !in BlocksOf(held)
      ensures name in dir.Contents() ==>
                && dir.Removable(name) && dir.nodes.IsLive(dir.Contents()[name])
                && (FileOf(dir.Contents()[name], Listing(dir.grid), vol.inodes) <==> dir.Entry(name).isFile)
                && (dir.Entry(name).isFile ==> dir.Contents()[name] in files && held == files[dir.Contents()[name]].rep)
                && (dir.Entry(name).isFile ==> forall b :: b in BlocksOf(held) ==> b in dir.GivenBack(name, held))
                && forall b :: b in dir.GivenBack(name, held) ==>
                  b in dir.maps || (dir.Entry(name).isFile && b in BlocksOf(held))
    {
      hide Chain, HoldsBytes, Listing, NoLeak, DirChain, Released;
      dir.ListedFacts();
      if name in dir.Contents() {
        FreedBlocks(dir.maps, dir.grid, dir.Contents()[name]);
        if dir.Entry(name).isFile {
          assert FileOf(dir.Contents()[name], Listing(dir.grid), vol.inodes);
          RepShape(vol.blocks, dir.Entry(name).next, held);
          ReleasedAll(held);
        }
      }
    }

    ghost function KeptAt(name: string): Kept
      requires Valid() && name in View() && View()[name].Data?
      reads this, dir, dir.vol, dir.data, dir.nodes, dir.data.window, dir.nodes.window
    {
      NamedFile(name);
      files[dir.Contents()[name]]
    }

    lemma HeldIsLive(n: string)
      requires Valid() && n in View() && View()[n].Data?
      ensures forall b :: b in KeptAt(n).rep.maps || b in KeptAt(n).rep.blks ==> dir.data.IsLive(b)
    {
      NamedFile(n);
      var k := files[dir.Contents()[n]];
      assert forall b :: b in k.rep.maps || b in k.rep.blks ==> b in BlocksOf(k.rep);
    }

    /** kopen on a file: no cursor, position 0. */
    method OpenEntry(name: string) returns (f: OpenFile)
      requires Valid() && name in View() && View()[name].Data?
      ensures fresh(f) && f.Valid() && f.vol == vol && f.alloc == dir.data && f.inode.self == old(dir.Contents()[name])
      ensures f.contents == old(View()[name].bytes) && f.rep == old(KeptAt(name).rep) && f.inode.pos == 0 && f.Loose()
      ensures f.inode.self in vol.inodes && Identity(f.inode) == Identity(vol.inodes[f.inode.self])
      ensures f.inode.next == vol.inodes[f.inode.self].next
    {
      hide Whole, Listing, Directory.Represents;
      NamedFile(name);
      HeldIsLive(name);
      var b := dir.Find(name);
      f := new OpenFile(vol, dir.data, b, false, files[b].rep, files[b].bytes);
    }

    /** kclose after a call on the open file of a name, which began on disk `d`: the store holds
        what the file holds, and everything else as it was; a bare file leaves it invalid. */
    method CloseEntry(f: OpenFile, ghost d: Disk, ghost inodes: Inodes, ghost live: set<nat>)
      requires (f.Valid() || f.Bare()) && dir.Counted() && f.vol == vol == dir.vol && f.alloc == dir.data
      requires dir.StoodOn(d, inodes, live) && dir.Placed() && Distinct(Listing(dir.grid), inodes)
      requires Whole(Listing(dir.grid), inodes, files, d, dir.data.regionStart, live, dir.maps)
      requires NodesUsed(dir.nodes.live, dir.nodes.regionStart, dir.self, Listing(dir.grid))
      requires FileOf(f.inode.self, Listing(dir.grid), inodes) && f.inode.self in files
      requires Identity(f.inode) == Identity(inodes[f.inode.self]) && f.SameFile(inodes, Identity(f.inode))
      requires f.GrownSince(d, live, files[f.inode.self].rep)
      modifies this`files, f`inode, vol`inodes
      ensures old(f.Valid()) ==>
                && Valid() && dir.Contents() == Names(Listing(dir.grid), inodes)
                && View() == old(ViewOf(Listing(dir.grid), inodes,
                     files))[inodes[old(f.inode.self)].path := NodeOf(Kept(f.rep, f.contents))]
      ensures !old(f.Valid()) ==>
                && dir.Valid() && dir.Contents() == Names(Listing(dir.grid), inodes) && files == old(files)
                && OthersStay(old(f.inode.self))
    {
      hide Store, Plain, NoLeak, NodesUsed, Listing, Distinct, Directory.Valid, Directory.StoodOn, Grown, Holding,
        ViewOf, Names, OpenFile.Valid, InodesKept;
      ghost var b, before, valid := f.inode.self, vol.inodes, f.Valid();
      f.LeftIsPlaced();
      f.Close();
      ClosedInodes(before, b, f.inode);
      InodesTwice(inodes, before, vol.inodes, Identity(f.inode));
      OthersUnchanged(Listing(dir.grid), inodes, vol.inodes, Identity(f.inode));
      HeldApart(inodes, d, live, b);
      dir.CallKeepsDirectory(f, d, inodes, live, files[b].rep);
      if !valid {
        WholeIsStore(Listing(dir.grid), inodes, files, d, dir.data.regionStart, live, dir.maps);
        OthersHeld(Listing(dir.grid), inodes, files, dir.data, d, live, dir.maps, vol.inodes, vol.blocks,
          dir.data.live, b, f.rep);
      } else {
        f.ValidSize();
        ghost var k := Kept(f.rep, f.contents);
        NowHeld(f, dir.data.live);
        StoreWritten(Listing(dir.grid), inodes, files, dir.data, d, live, dir.maps, vol.inodes, vol.blocks,
          dir.data.live, b, k);
        WasEntry(inodes, live, b);
        PlainWritten(Listing(dir.grid), inodes, vol.inodes, Identity(f.inode));
        GrownParts(dir.data, d, vol.blocks, live, dir.data.live, files[b].rep, k.rep);
        NoLeakWritten(Listing(dir.grid), inodes, files, dir.data.regionStart, live, dir.maps, vol.inodes, dir.data.live,
          b, k);
        ViewWritten(Listing(dir.grid), inodes, vol.inodes, files, b, k);
        files := files[b := k];
      }
    }

    lemma WasEntry(inodes: Inodes, live: set<nat>, b: nat)
      requires dir.Valid() && Distinct(Listing(dir.grid), inodes) && FileOf(b, Listing(dir.grid), inodes)
      requires InodesKept(inodes, vol.inodes, Identity(inodes[b])) && inodes[b].self == b && vol == dir.vol
      ensures !inodes[b].isDirectory
    {
    }

    lemma GrownParts(alloc: Allocator, d0: Disk, d1: Disk, live0: set<nat>, live1: set<nat>, r0: Rep, r1: Rep)
      requires Grown(alloc, d0, d1, live0, live1, r0, r1)
      ensures r0.maps <= r1.maps && r0.blks <= r1.blks && LiveFor(alloc.regionStart, live0, live1, BlocksOf(r1))
    {
    }

    lemma ClosedInodes(before: Inodes, b: nat, node: InodeRecord)
      requires b == node.self
      ensures InodesKept(before, before[b := node], Identity(node))
    {
    }

    lemma HeldApart(inodes: Inodes, d: Disk, live: set<nat>, b: nat)
      requires Whole(Listing(dir.grid), inodes, files, d, dir.data.regionStart, live, dir.maps)
      requires FileOf(b, Listing(dir.grid), inodes)
      ensures b in files && forall m :: m in dir.maps ==> m !in BlocksOf(files[b].rep)
    {
    }

    /** What a valid open file holds, closed. */
    lemma NowHeld(f: OpenFile, live: set<nat>)
      requires f.Valid() && f.vol == vol && f.alloc == dir.data && live == dir.data.live
      requires forall m :: m in dir.maps ==> m !in BlocksOf(f.rep)
      ensures Holding(f.inode, Kept(f.rep, f.contents), vol.blocks, dir.data.regionStart, live, dir.maps)
    {
      hide Chain, HoldsBytes;
      assert forall b :: b in BlocksOf(f.rep) ==> b in f.rep.maps || b in f.rep.blks;
    }

    /** kopen and klseek: the file of a name, at a position, with no cursor. */
    method OpenAt(name: string, pos: nat) returns (f: OpenFile)
      requires Valid() && name in View() && View()[name].Data? && pos < POS_LIMIT
      modifies vol`inodes
      ensures fresh(f) && f.Valid() && f.vol == vol && f.alloc == dir.data && f.inode.self == old(dir.Contents()[name])
      ensures f.contents == old(View()[name].bytes) && f.rep == files[f.inode.self].rep
      ensures f.inode.pos == pos && f.Loose()
      ensures f.inode.size == |f.contents| && f.inode.self in old(vol.inodes)
      ensures f.inode.next == old(vol.inodes)[f.inode.self].next
      ensures Identity(f.inode) == Identity(old(vol.inodes)[f.inode.self])
      ensures f.SameFile(old(vol.inodes), Identity(f.inode))
    {
      hide Chain, Allocator.Valid, DirChain, HoldsBytes, Plain, NoLeak, Store, Whole, Listing, Directory.Represents,
        OpenFile.Valid, View;
      NamedFile(name);
      f := OpenEntry(name);
      var p := f.Seek(pos, SeekSet);
      f.ValidSize();
    }

    /** A write with bytes to move, to a file without blocks that can get one. */
    ghost predicate Sticks(name: string, pos: nat, count: nat)
      requires IsFile(name)
      reads this, dir, dir.vol, dir.data, dir.nodes, dir.data.window, dir.nodes.window
    {
      !Idle(|FileAt(name).bytes|, pos, count) && FileAt(name).blocks == 0 && dir.data.Room() == 1
    }

    /** Every file but the one with inode block `b` is held. */
    ghost predicate OthersStay(b: nat)
      reads this, dir, vol, dir.data
    {
      forall c :: FileOf(c, Listing(dir.grid), vol.inodes) && c != b ==>
        && c in files
        && Holding(vol.inodes[c], files[c], vol.blocks, dir.data.regionStart, dir.data.live, dir.maps)
    }

    /** kopen, klseek, kwrite and kclose: the bytes of that name are overwritten, or extended
        after a gap of zeros, and no other name changes. Whether the write gets through, and how
        far if not, depends on the blocks that the file has or can get. It leaves the file
        system valid unless it `Sticks`; then the directory still is, with the same names, and
        every other file is held as before. */
    method WriteFile(name: string, pos: nat, buf: array<bv8>, count: nat) returns (r: int)
      requires IsFile(name) && pos < POS_LIMIT && Writable(FileAt(name).bytes, pos, count)
      requires count <= buf.Length && buf != dir.data.window && buf != dir.nodes.window
      modifies this`files, vol, dir.data, dir.data.window, buf
      ensures buf[..] == old(buf[..])
      ensures r >= 0 <==> WriteLasts(old(FileAt(name)), pos, count, old(dir.data.Room()))
      ensures r >= 0 ==>
                r == if pos > |old(FileAt(name)).bytes| then pos + count - |old(FileAt(name)).bytes| else count
      ensures pos + count <= |old(FileAt(name)).bytes| ==> r >= 0 && dir.data.live == old(dir.data.live)
      ensures SameDirectory(old(dir.maps), old(dir.grid), old(dir.Contents()))
      ensures dir.nodes.Room() == old(dir.nodes.Room())
      ensures if old(Sticks(name, pos, count)) then
                r < 0 && files == old(files) && OthersStay(old(dir.Contents()[name]))
              else
                var node := NodeWritten(old(FileAt(name)), pos, old(buf[..count]), old(dir.data.Room()));
                && Stands(old(View())[name := node])
                && dir.data.Room() == old(dir.data.Room() + FileAt(name).blocks) - node.blocks
    {
      hide Chain, Allocator.Valid, DirChain, HoldsBytes, Plain, NoLeak, Store, Holding, FileOf, Allocator.Room,
        Allocator.IsExact, Whole, NodesUsed, Listing, Distinct, Directory.StoodOn, Directory.Represents,
        Directory.Mounted, Grown, OpenFile.Valid, OpenFile.Bare, OpenFile.CallMisses, ViewOf, Names, Written, Partly,
        Lasts, Needs, Idle, Capacity, BlocksOf, OthersStay, Through, Stop, Reach, OpenFile.Since, OpenFile.Now;
      NamedFile(name);
      dir.ListedFacts();
      dir.TwoAllocators();
      dir.StandsNow();
      ghost var d, inodes, live, b := vol.blocks, vol.inodes, dir.data.live, dir.Contents()[name];
      var f := OpenAt(name, pos);
      ghost var before, s := vol.inodes, f.Now();
      f.CallMissesIff(count);
      f.NowIs();
      f.NoBlocksIff();
      r := f.Write(buf, count);
      f.SinceParts(s);
      InodesTwice(inodes, before, vol.inodes, Identity(f.inode));
      CloseEntry(f, d, inodes, live);
    }

    lemma WholeIsStore(l: seq<nat>, inodes: Inodes, files: map<nat, Kept>, d: Disk, start: nat, live: set<nat>,
                       maps: seq<nat>)
      requires Whole(l, inodes, files, d, start, live, maps)
      ensures Store(l, inodes, files, d, start, live, maps)
    {
    }

    /** kopen, klseek, kread and kclose inside a file: the slice comes back and nothing changes. */
    method ReadFile(name: string, pos: nat, buf: array<bv8>, count: nat) returns (r: int)
      requires IsFile(name) && pos < POS_LIMIT && Writable(FileAt(name).bytes, pos, count)
      requires pos + count <= |FileAt(name).bytes|
      requires count <= buf.Length && buf != dir.data.window && buf != dir.nodes.window
      modifies this`files, vol, dir.data, dir.data.window, buf
      ensures r == count && buf[..count] == old(FileAt(name)).bytes[pos..pos + count]
      ensures Stands(old(View())) && SameDirectory(old(dir.maps), old(dir.grid), old(dir.Contents()))
      ensures dir.data.Room() == old(dir.data.Room()) && dir.nodes.Room() == old(dir.nodes.Room())
    {
      hide Chain, Allocator.Valid, DirChain, HoldsBytes, Plain, NoLeak, Store, Holding, FileOf, Allocator.Room,
        Allocator.IsExact, Whole, NodesUsed, Listing, Distinct, SameBlocks, Directory.StoodOn, Directory.Represents,
        Directory.Mounted, Grown, OpenFile.Valid, OpenFile.Bare, OpenFile.CallMisses, ViewOf, Names, Lasts, Needs,
        Idle, Capacity, BlocksOf, OthersStay, Through, Stop, Reach, OpenFile.Since, OpenFile.Now;
      NamedFile(name);
      dir.ListedFacts();
      dir.TwoAllocators();
      dir.StandsNow();
      ghost var d, inodes, live := vol.blocks, vol.inodes, dir.data.live;
      var f := OpenAt(name, pos);
      ghost var before, s := vol.inodes, f.Now();
      f.CallMissesIff(count);
      f.NowIs();
      r := f.Read(buf, count);
      f.SinceParts(s);
      InodesTwice(inodes, before, vol.inodes, Identity(f.inode));
      CloseEntry(f, d, inodes, live);
    }

    /** What the name stands for, as far as a caller can see before opening it. */
    method Stat(name: string) returns (isFile: bool, size: nat, empty: bool)
      requires Valid()
      ensures isFile <==> IsFile(name)
      ensures isFile ==> size == |FileAt(name).bytes| && (empty <==> FileAt(name).blocks == 0)
    {
      hide Listing, Whole, NodesUsed, Directory.Represents, Directory.Mounted, View, IsFile, FileAt;
      WhatInodeSays(name);
      var b := dir.Find(name);
      if b == INODE_NULL {
        return false, 0, true;
      }
      isFile, size, empty := vol.inodes[b].isFile, vol.inodes[b].size, vol.inodes[b].next == INODE_NULL;
    }

    /** The inode of a name tells whether it is a file, its size, and whether it has blocks. */
    lemma WhatInodeSays(n: string)
      requires Valid()
      ensures n in dir.Contents() ==> dir.Contents()[n] in vol.inodes
      ensures IsFile(n) <==> n in dir.Contents() && vol.inodes[dir.Contents()[n]].isFile
      ensures IsFile(n) ==>
                var node := vol.inodes[dir.Contents()[n]];
                node.size == |FileAt(n).bytes| && (node.next == INODE_NULL <==> FileAt(n).blocks == 0)
    {
      hide HoldsBytes, NoLeak, Listing, Directory.Mounted, DirChain, WellShaped;
      dir.ListedFacts();
      if IsFile(n) {
        NamedFile(n);
        var b := dir.Contents()[n];
        if vol.inodes[b].next != INODE_NULL {
          ChainEnds(vol.blocks, vol.inodes[b].next, files[b].rep);
        }
      }
    }
  }

  /** A write gets through with the blocks that the file has or can get. */
  predicate WriteLasts(node: Node, pos: nat, count: nat, room: nat)
    requires node.Data?
  {
    Lasts(|node.bytes|, pos, count, Capacity(node.blocks + room))
  }

  /** What a name stands for after a write, with `room` blocks left before it: the new bytes, or
      as many as got through before the last block was taken. */
  function NodeWritten(node: Node, pos: nat, d: seq<bv8>, room: nat): (n: Node)
    requires node.Data?
    ensures n.Data? && node.blocks <= n.blocks <= node.blocks + room
  {
    LastsIff(|node.bytes|, pos, |d|, node.blocks, room);
    if WriteLasts(node, pos, |d|, room) then
      Data(Written(node.bytes, pos, d), Needs(node.blocks, |node.bytes|, pos, |d|))
    else
      var k := Through(|node.bytes|, pos, Capacity(node.blocks + room));
      Data(Partly(node.bytes, pos, d, k), node.blocks + room)
  }

  /** The call does not meet the short scan, and its gap fits the 32-bit step count. */
  predicate Writable(bytes: seq<bv8>, pos: nat, count: nat) {
    WritableAt(|bytes|, pos, count)
  }

  predicate WritableAt(size: nat, pos: nat, count: nat) {
    !MissesOn(size, pos, true, count) && pos < size + GAP_LIMIT
  }
}
