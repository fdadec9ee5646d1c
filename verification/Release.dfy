// Giving back the blocks of a plain file: the part of inode_free that walks the chain.
module Releasing {
  import opened Wrappers
  import opened Blocks
  import opened Counting
  import opened BlockMaps
  import opened FileChain
  import opened AllocSpec
  import opened Allocation
  import opened Volumes
  import opened FileData

  /** What is left of `live` when the blocks `bs` are given back. */
  ghost function LiveWithout(live: set<nat>, start: nat, bs: seq<nat>): set<nat> {
    set n | n in live && n + start !in bs
  }

  ghost predicate InMap(s: MapState, start: nat, bs: seq<nat>) {
    forall b :: b in bs ==> start <= b < start + BITS * |s.store|
  }

  /** Free the blocks `bs`, one after the other. */
  ghost function FreeBlocks(s: MapState, start: nat, bs: seq<nat>): (t: MapState)
    requires InMap(s, start, bs)
    ensures t.store == s.store
  {
    if bs == [] then s
    else
      InMapFront(s, start, bs);
      Free(FreeBlocks(s, start, bs[..|bs| - 1]), bs[|bs| - 1] - start)
  }

  lemma InMapFront(s: MapState, start: nat, bs: seq<nat>)
    requires InMap(s, start, bs) && bs != []
    ensures InMap(s, start, bs[..|bs| - 1]) && start <= bs[|bs| - 1] < start + BITS * |s.store|
  {
    assert bs[|bs| - 1] in bs;
    var front := bs[..|bs| - 1];
    forall b | b in front ensures start <= b < start + BITS * |s.store| {
      var i :| 0 <= i < |front| && front[i] == b;
      assert bs[i] in bs;
    }
  }

  lemma FreeOneMore(s: MapState, start: nat, bs: seq<nat>, b: nat)
    requires InMap(s, start, bs) && start <= b < start + BITS * |s.store|
    ensures InMap(s, start, bs + [b])
    ensures FreeBlocks(s, start, bs + [b]) == Free(FreeBlocks(s, start, bs), b - start)
  {
    assert (bs + [b])[..|bs|] == bs;
  }

  lemma {:induction false} FreeBlocksTwice(s: MapState, start: nat, bs: seq<nat>, cs: seq<nat>)
    requires InMap(s, start, bs) && InMap(s, start, cs)
    ensures InMap(s, start, bs + cs)
    ensures FreeBlocks(s, start, bs + cs) == FreeBlocks(FreeBlocks(s, start, bs), start, cs)
  {
    if cs == [] {
      assert bs + cs == bs;
    } else {
      var n := |cs| - 1;
      InMapFront(s, start, cs);
      FreeBlocksTwice(s, start, bs, cs[..n]);
      assert (bs + cs)[..|bs + cs| - 1] == bs + cs[..n];
    }
  }

  /** On a map of one block the bits say exactly what is live, whatever is freed. */
  lemma {:induction false} FreeBlocksExactly(s: MapState, live: set<nat>, start: nat, bs: seq<nat>)
    requires Exact(s, live) && |s.store| == 1 && InMap(s, start, bs)
    ensures Exact(FreeBlocks(s, start, bs), LiveWithout(live, start, bs))
  {
    hide Exact, Free;
    if bs == [] {
      assert LiveWithout(live, start, bs) == live;
    } else {
      var less, b := bs[..|bs| - 1], bs[|bs| - 1];
      InMapFront(s, start, bs);
      FreeBlocksExactly(s, live, start, less);
      FreeIsExactIff(FreeBlocks(s, start, less), LiveWithout(live, start, less), b - start);
      OneBlockMap(FreeBlocks(s, start, less), LiveWithout(live, start, less));
      LessOne(live, start, less, b);
      assert less + [b] == bs;
    }
  }

  lemma OneBlockMap(s: MapState, live: set<nat>)
    requires Exact(s, live) && |s.store| == 1
    ensures s.ptr == 0
  {
  }

  lemma LessOne(live: set<nat>, start: nat, bs: seq<nat>, b: nat)
    requires b >= start
    ensures LiveWithout(live, start, bs + [b]) == LiveWithout(live, start, bs) - {b - start}
  {
  }

  lemma {:induction false} WithoutCount(live: set<nat>, start: nat, bs: seq<nat>)
    requires NoDup(bs) && forall b :: b in bs ==> b >= start && b - start in live
    ensures |LiveWithout(live, start, bs)| + |bs| == |live|
  {
    hide LiveWithout;
    if bs == [] {
      NothingLess(live, start);
    } else {
      var less, b := bs[..|bs| - 1], bs[|bs| - 1];
      assert less + [b] == bs;
      assert b in bs && forall c :: c in less ==> c in bs;
      WithoutCount(live, start, less);
      LessOne(live, start, less, b);
      StillLive(live, start, less, b);
    }
  }

  lemma NothingLess(live: set<nat>, start: nat)
    ensures LiveWithout(live, start, []) == live
  {
  }

  lemma StillLive(live: set<nat>, start: nat, bs: seq<nat>, b: nat)
    requires b !in bs && b >= start && b - start in live
    ensures b - start in LiveWithout(live, start, bs)
  {
  }

  /** The blocks that the walk gives back before slot `k` of map `i`: for each map the data
      blocks it names, and then the map. */
  function ReleasedBefore(r: Rep, i: nat, k: nat): seq<nat>
    requires i <= |r.maps|
    decreases i, k
  {
    if k > 0 then
      var m := BMAP_BLOCKS * i + k - 1;
      ReleasedBefore(r, i, k - 1) + if m < |r.blks| then [r.blks[m]] else []
    else if i > 0 then ReleasedBefore(r, i - 1, BMAP_BLOCKS) + [r.maps[i - 1]]
    else []
  }

  /** All blocks of a file, in the order in which unlinking it gives them back. */
  function Released(r: Rep): seq<nat> {
    ReleasedBefore(r, |r.maps|, 0)
  }

  function Upto(n: nat, size: nat): (r: nat)
    ensures r <= size
  {
    if n <= size then n else size
  }

  lemma {:induction false} ReleasedHas(r: Rep, i: nat, k: nat)
    requires i <= |r.maps| && k <= BMAP_BLOCKS
    ensures var m := Upto(BMAP_BLOCKS * i + k, |r.blks|);
            && |ReleasedBefore(r, i, k)| == i + m
            && forall b :: b in ReleasedBefore(r, i, k) <==> b in r.maps[..i] || b in r.blks[..m]
    decreases i, k
  {
    if k > 0 {
      var m := BMAP_BLOCKS * i + k - 1;
      ReleasedHas(r, i, k - 1);
      if m < |r.blks| {
        assert r.blks[..m + 1] == r.blks[..m] + [r.blks[m]];
      }
    } else if i > 0 {
      ReleasedHas(r, i - 1, BMAP_BLOCKS);
      assert r.maps[..i] == r.maps[..i - 1] + [r.maps[i - 1]];
    }
  }

  /** They are the blocks of the file, each once. */
  lemma ReleasedAll(r: Rep)
    requires r == Rep([], []) || WellShaped(r)
    ensures |Released(r)| == |BlocksOf(r)| && forall b :: b in Released(r) <==> b in BlocksOf(r)
  {
    ReleasedHas(r, |r.maps|, 0);
    assert r.maps[..|r.maps|] == r.maps && r.blks[..|r.blks|] == r.blks;
  }

  /** Where the blocks given back before slot `k` of map `i` stand in that order. */
  ghost predicate InPlace(r: Rep, i: nat, k: nat, bs: seq<nat>)
    requires i <= |r.maps|
  {
    && |bs| == i + Upto(BMAP_BLOCKS * i + k, |r.blks|)
    && (forall m :: 0 <= m < Upto(BMAP_BLOCKS * i + k, |r.blks|) && m + m / BMAP_BLOCKS < |bs| ==>
          bs[m + m / BMAP_BLOCKS] == r.blks[m])
    && (forall j :: 0 <= j < i && j + Upto(BMAP_BLOCKS * (j + 1), |r.blks|) < |bs| ==>
          bs[j + Upto(BMAP_BLOCKS * (j + 1), |r.blks|)] == r.maps[j])
  }

  lemma {:induction false} ReleasedAt(r: Rep, i: nat, k: nat)
    requires i <= |r.maps| && k <= BMAP_BLOCKS && (i == |r.maps| ==> k == 0)
    ensures InPlace(r, i, k, ReleasedBefore(r, i, k))
    decreases i, k
  {
    hide InPlace, ReleasedBefore;
    if k > 0 {
      ReleasedAt(r, i, k - 1);
      SlotInPlace(r, i, k - 1, ReleasedBefore(r, i, k - 1));
      NextReleased(r, i, k - 1);
    } else if i > 0 {
      ReleasedAt(r, i - 1, BMAP_BLOCKS);
      MapInPlace(r, i - 1, ReleasedBefore(r, i - 1, BMAP_BLOCKS));
      NextReleased(r, i - 1, 0);
    } else {
      FirstReleased(r);
      NothingInPlace(r);
    }
  }

  lemma NothingInPlace(r: Rep)
    ensures InPlace(r, 0, 0, [])
  {
  }

  lemma SlotInPlace(r: Rep, i: nat, k: nat, bs: seq<nat>)
    requires i <= |r.maps| && k < BMAP_BLOCKS && InPlace(r, i, k, bs)
    ensures var m := BMAP_BLOCKS * i + k; InPlace(r, i, k + 1, bs + if m < |r.blks| then [r.blks[m]] else [])
  {
    assert (BMAP_BLOCKS * i + k) / BMAP_BLOCKS == i;
  }

  lemma MapInPlace(r: Rep, i: nat, bs: seq<nat>)
    requires i < |r.maps| && InPlace(r, i, BMAP_BLOCKS, bs)
    ensures InPlace(r, i + 1, 0, bs + [r.maps[i]])
  {
  }

  /** Data blocks go in the order of the file, and each map goes behind the 127 it names; the
      last block to go is the last map. */
  lemma ReleasedInOrder(r: Rep)
    requires WellShaped(r)
    ensures |Released(r)| == |r.blks| + |r.maps|
    ensures forall m :: 0 <= m < |r.blks| ==> Released(r)[m + m / BMAP_BLOCKS] == r.blks[m]
    ensures forall j :: 0 <= j < |r.maps| - 1 ==> Released(r)[(BMAP_BLOCKS + 1) * j + BMAP_BLOCKS] == r.maps[j]
    ensures Released(r)[|Released(r)| - 1] == r.maps[|r.maps| - 1]
  {
    ReleasedAt(r, |r.maps|, 0);
    assert BMAP_BLOCKS * (|r.maps| - 1 + 1) == BMAP_BLOCKS * |r.maps|;
  }

  /** A file on disk: no blocks, or a chain of live blocks. */
  ghost predicate OnDisk(vol: Volume, alloc: Allocator, next: nat, r: Rep)
    reads vol`blocks, alloc`live
  {
    if next == INODE_NULL then r == Rep([], [])
    else Chain(vol.blocks, next, r) && InUse(BlocksOf(r), alloc.regionStart, alloc.live)
  }

  /** The walk comes to the next data block, or map, for the first time. */
  lemma NextIsNew(r: Rep, i: nat, k: nat)
    requires WellShaped(r) && i < |r.maps| && k <= BMAP_BLOCKS
    ensures var m := BMAP_BLOCKS * i + k;
            m < |r.blks| ==> r.blks[m] in BlocksOf(r) && r.blks[m] !in ReleasedBefore(r, i, k)
    ensures r.maps[i] in BlocksOf(r) && r.maps[i] !in ReleasedBefore(r, i, k)
  {
    ReleasedHas(r, i, k);
    var m := BMAP_BLOCKS * i + k;
    assert r.maps[i] in r.maps && (m < |r.blks| ==> r.blks[m] in r.blks);
    assert forall t :: 0 <= t < i ==> r.maps[t] != r.maps[i];
  }

  /** What has been freed of the allocator: the blocks `done`, in that order. */
  ghost predicate Freed(alloc: Allocator, s0: MapState, live0: set<nat>, done: seq<nat>)
    reads alloc, alloc.vol`blocks, alloc.window
  {
    && alloc.Valid() && InMap(s0, alloc.regionStart, done)
    && alloc.state == FreeBlocks(s0, alloc.regionStart, done)
    && alloc.live == LiveWithout(live0, alloc.regionStart, done)
  }

  lemma NothingFreed(alloc: Allocator)
    requires alloc.Valid()
    ensures Freed(alloc, alloc.state, alloc.live, [])
  {
  }

  lemma FreedState(alloc: Allocator, s0: MapState, live0: set<nat>, done: seq<nat>)
    requires Freed(alloc, s0, live0, done)
    ensures InMap(s0, alloc.regionStart, done)
    ensures alloc.state == FreeBlocks(s0, alloc.regionStart, done)
    ensures alloc.live == LiveWithout(live0, alloc.regionStart, done)
  {
  }

  /** The next allocation takes block `b`. */
  ghost predicate TakesNext(alloc: Allocator, b: nat)
    reads alloc, alloc.vol`blocks, alloc.window
  {
    alloc.Valid() && Get(alloc.state).1 == Some(b - alloc.regionStart)
  }

  /** The next allocation takes the block that was freed last. */
  lemma LastFreedIsNext(alloc: Allocator, s0: MapState, live0: set<nat>, done: seq<nat>)
    requires Freed(alloc, s0, live0, done) && done != []
    ensures TakesNext(alloc, done[|done| - 1])
  {
    InMapFront(s0, alloc.regionStart, done);
    var s, n := alloc.state, done[|done| - 1] - alloc.regionStart;
    assert FirstClear(s.window, s.bit) == s.bit;
    assert n == (n / BITS) * BITS + n % BITS;
  }

  /** After an unlink that is the map it left empty, or else the last map of the file. */
  lemma NextAfterUnlink(alloc: Allocator, s0: MapState, live0: set<nat>, d: Disk, node: InodeRecord, r: Rep,
                        emptied: seq<nat>)
    requires Freed(alloc, s0, live0, (if node.isFile then Released(r) else []) + emptied)
    requires node.isFile && node.next != INODE_NULL ==> Chain(d, node.next, r)
    ensures emptied != [] ==> TakesNext(alloc, emptied[|emptied| - 1])
    ensures emptied == [] && node.isFile && node.next != INODE_NULL ==>
              r.maps != [] && TakesNext(alloc, r.maps[|r.maps| - 1])
  {
    hide Freed, Released, TakesNext;
    var done := (if node.isFile then Released(r) else []) + emptied;
    if node.isFile && node.next != INODE_NULL {
      ReleasedInOrder(r);
    }
    if done != [] {
      LastFreedIsNext(alloc, s0, live0, done);
    }
  }

  lemma NoneIsLive(alloc: Allocator, s0: MapState, live0: set<nat>, done: seq<nat>)
    requires Freed(alloc, s0, live0, done)
    ensures forall b :: b in done ==> !alloc.IsLive(b)
  {
  }

  lemma FreedAgain(alloc: Allocator, s0: MapState, live0: set<nat>, bs: seq<nat>, cs: seq<nat>)
    requires InMap(s0, alloc.regionStart, bs)
    requires Freed(alloc, FreeBlocks(s0, alloc.regionStart, bs), LiveWithout(live0, alloc.regionStart, bs), cs)
    ensures Freed(alloc, s0, live0, bs + cs)
  {
    FreeBlocksTwice(s0, alloc.regionStart, bs, cs);
    var start := alloc.regionStart;
    assert LiveWithout(LiveWithout(live0, start, bs), start, cs) == LiveWithout(live0, start, bs + cs);
  }

  /** inode_free_data_block on a block that is live: it clears a set bit. */
  method FreeOne(alloc: Allocator, b: nat, ghost s0: MapState, ghost live0: set<nat>, ghost done: seq<nat>)
    requires Freed(alloc, s0, live0, done)
    requires b >= alloc.regionStart && b - alloc.regionStart in live0 && b !in done
    modifies alloc, alloc.window
    ensures Freed(alloc, s0, live0, done + [b])
  {
    hide Safe, MapBits, BitsOf, Free, FreeBlocks;
    FreeIsInRange(alloc, b);
    FreeOneMore(s0, alloc.regionStart, done, b);
    LessOne(live0, alloc.regionStart, done, b);
    var warned := alloc.FreeBlock(b);
    assert !warned;
  }

  lemma FreeIsInRange(alloc: Allocator, b: nat)
    requires alloc.Valid() && alloc.IsLive(b)
    ensures alloc.InRegion(b) && |alloc.state.store| == alloc.Size() > alloc.state.ptr
    ensures (b - alloc.regionStart) / BITS < alloc.Size()
  {
  }

  /** The slots of one map: give back every data block they name. */
  method FreeSlots(vol: Volume, alloc: Allocator, data: BlockMap, freed0: nat,
                   ghost next: nat, ghost r: Rep, ghost i: nat, ghost s0: MapState, ghost live0: set<nat>)
    returns (freed: nat)
    requires alloc.vol == vol && Chain(vol.blocks, next, r)
    requires i < |r.maps| && data == MapAt(vol.blocks, r.maps[i])
    requires InUse(BlocksOf(r), alloc.regionStart, live0) && Freed(alloc, s0, live0, ReleasedBefore(r, i, 0))
    requires freed0 == |ReleasedBefore(r, i, 0)|
    modifies alloc, alloc.window
    ensures Freed(alloc, s0, live0, ReleasedBefore(r, i, BMAP_BLOCKS))
    ensures freed == |ReleasedBefore(r, i, BMAP_BLOCKS)|
  {
    hide Freed, WellShaped, ReleasedBefore;
    freed := freed0;
    var k := 0;
    while k < BMAP_BLOCKS
      invariant k <= BMAP_BLOCKS && Freed(alloc, s0, live0, ReleasedBefore(r, i, k))
                && freed == |ReleasedBefore(r, i, k)|
    {
      SlotNames(vol.blocks, next, r, i, k);
      NextIsNew(r, i, k);
      NextReleased(r, i, k);
      if data.blocks[k] != INODE_NULL {
        FreeOne(alloc, data.blocks[k], s0, live0, ReleasedBefore(r, i, k));
        freed := freed + 1;
      }
      k := k + 1;
    }
  }

  lemma NextReleased(r: Rep, i: nat, k: nat)
    requires i < |r.maps|
    ensures var m := BMAP_BLOCKS * i + k;
            ReleasedBefore(r, i, k + 1) == ReleasedBefore(r, i, k) + if m < |r.blks| then [r.blks[m]] else []
    ensures ReleasedBefore(r, i + 1, 0) == ReleasedBefore(r, i, BMAP_BLOCKS) + [r.maps[i]]
    ensures ReleasedBefore(r, i, k) + [] == ReleasedBefore(r, i, k) && ReleasedBefore(r, 0, 0) == []
  {
  }

  lemma SlotNames(d: Disk, next: nat, r: Rep, i: nat, k: nat)
    requires Chain(d, next, r) && i < |r.maps| && k < BMAP_BLOCKS
    ensures MapAt(d, r.maps[i]).blocks[k] == if BMAP_BLOCKS * i + k < |r.blks| then r.blks[BMAP_BLOCKS * i + k]
              else INODE_NULL
    ensures MapAt(d, r.maps[i]).blocks[k] != INODE_NULL <==> BMAP_BLOCKS * i + k < |r.blks|
  {
    assert MapHolds(MapAt(d, r.maps[i]), r, i);
    if BMAP_BLOCKS * i + k < |r.blks| {
      assert r.blks[BMAP_BLOCKS * i + k] in r.blks;
    }
  }

  /** Unlinking a plain file gives back exactly its data blocks and its maps, each once, in the
      order of the chain; on a map of one block every bit then says exactly what is live. */
  method FreeFileBlocks(vol: Volume, alloc: Allocator, next: nat, ghost r: Rep) returns (freed: nat)
    requires alloc.vol == vol && alloc.Valid() && OnDisk(vol, alloc, next, r)
    modifies alloc, alloc.window
    ensures Freed(alloc, old(alloc.state), old(alloc.live), Released(r))
    ensures alloc.live == LiveWithout(old(alloc.live), alloc.regionStart, BlocksOf(r))
    ensures freed == |r.maps| + |r.blks| == |Released(r)| && forall b :: b in Released(r) <==> b in BlocksOf(r)
    ensures alloc.Size() == 1 && old(Exact(alloc.state, alloc.live)) ==> Exact(alloc.state, alloc.live)
  {
    hide Exact, Freed, WellShaped, ReleasedBefore, Allocator.Valid;
    ghost var s0, live0 := alloc.state, alloc.live;
    var j := next;
    freed := 0;
    ghost var i := 0;
    NothingFreed(alloc);
    if next != INODE_NULL {
      ChainEnds(vol.blocks, next, r);
      NextReleased(r, 0, 0);
    }
    FirstReleased(r);
    while j != INODE_NULL
      invariant i <= |r.maps| && j == (if i < |r.maps| then r.maps[i] else INODE_NULL)
      invariant Freed(alloc, s0, live0, ReleasedBefore(r, i, 0)) && freed == |ReleasedBefore(r, i, 0)|
      decreases |r.maps| - i
    {
      var data := vol.MapRead(j);
      freed := FreeSlots(vol, alloc, data, freed, next, r, i, s0, live0);
      NextIsNew(r, i, BMAP_BLOCKS);
      NextReleased(r, i, 0);
      FreeOne(alloc, j, s0, live0, ReleasedBefore(r, i, BMAP_BLOCKS));
      LinkOf(vol.blocks, next, r, i);
      freed, j, i := freed + 1, data.next, i + 1;
    }
    NoMapIsNull(vol.blocks, next, r, i);
    RepShape(vol.blocks, next, r);
    ReleasedAll(r);
    FreedExactly(alloc, s0, live0, Released(r));
    assert LiveWithout(live0, alloc.regionStart, Released(r)) == LiveWithout(live0, alloc.regionStart, BlocksOf(r));
  }

  lemma FirstReleased(r: Rep)
    ensures ReleasedBefore(r, 0, 0) == []
  {
  }

  lemma RepShape(d: Disk, next: nat, r: Rep)
    requires if next == INODE_NULL then r == Rep([], []) else Chain(d, next, r)
    ensures r == Rep([], []) || WellShaped(r)
  {
  }

  lemma FreedExactly(alloc: Allocator, s0: MapState, live0: set<nat>, bs: seq<nat>)
    requires Freed(alloc, s0, live0, bs)
    ensures alloc.live == LiveWithout(live0, alloc.regionStart, bs)
    ensures |s0.store| == alloc.Size() && (alloc.Size() == 1 && Exact(s0, live0) ==> Exact(alloc.state, alloc.live))
  {
    hide Exact;
    if alloc.Size() == 1 && Exact(s0, live0) {
      FreeBlocksExactly(s0, live0, alloc.regionStart, bs);
    }
  }

  lemma NoMapIsNull(d: Disk, next: nat, r: Rep, i: nat)
    requires i < |r.maps| ==> Chain(d, next, r)
    ensures i < |r.maps| ==> r.maps[i] != INODE_NULL
  {
    assert i < |r.maps| ==> r.maps[i] in r.maps;
  }

  /** Giving back the blocks of one file leaves every open file apart from it as it was. */
  twostate lemma OthersSpared(g: OpenFile, r: Rep)
    requires old(g.Valid()) && unchanged(g) && unchanged(g.vol`blocks) && Apart(g.rep, r)
    requires g.alloc.Valid() && g.alloc.live == LiveWithout(old(g.alloc.live), g.alloc.regionStart, BlocksOf(r))
    ensures g.Valid()
  {
    hide Chain, HoldsBytes, Allocator.Valid, OpenFile.CursorAgrees;
    assert forall b :: b in g.rep.maps ==> b in BlocksOf(g.rep);
    assert forall b :: b in g.rep.blks ==> b in BlocksOf(g.rep);
  }
}
