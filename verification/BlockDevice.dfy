// The API of block.c over one device: the cache behind block_open, block_read,
// block_write, block_sync and block_close looks like a flat array of blocks.
module BlockDevice {
  import opened Blocks
  import opened CacheSpec
  import opened LruCache

  const CACHE_SIZE := 1031

  class BlockCache {
    const dev: Device
    var queue: Queue?
    var hash: Hash?

    /** A device slot with no cache yet. */
    constructor (dev: Device)
      ensures this.dev == dev && queue == null && hash == null
    {
      this.dev, queue, hash := dev, null, null;
    }

    ghost predicate Cached()
      reads this
    {
      queue != null && hash != null
    }

    ghost predicate Valid()
      reads this, queue, hash, if queue == null then {} else queue.repr, if hash == null then {} else {hash.slots}
    {
      && (queue == null <==> hash == null)
      && (Cached() ==> queue.Valid(hash) && queue.dev == dev)
    }

    /** What the device holds from the caller's side. */
    ghost function Contents(): Cache
      reads this, queue, dev
    {
      if queue == null then Cache([], dev.disk) else Cache(queue.frames, dev.disk)
    }

    /** Start caching; a device that is cached already is closed again and refused. */
    method Open() returns (r: BlockRtvl)
      requires Valid() && dev.isOpen
      modifies this, dev
      ensures old(Cached()) ==> r == BlockFail && !dev.isOpen
      ensures !old(Cached()) ==> r == BlockOk && Cached() && dev.isOpen && queue.numberOfFrames == CACHE_SIZE
      ensures !old(Cached()) ==> fresh(queue) && fresh(hash) && fresh(hash.slots) && fresh(queue.repr)
      ensures Valid() && Contents() == old(Contents())
    {
      if hash == null && queue == null {
        hash := new Hash(CACHE_SIZE);
        queue := new Queue(dev, CACHE_SIZE);
      } else {
        dev.Close();
        return BlockFail;
      }
      return BlockOk;
    }

    /** Read block `b` into `data`. No read, hit or miss, changes what any block reads as. */
    method Read(b: nat, data: array?<bv8>) returns (r: BlockRtvl)
      requires Valid() && dev.isOpen && b < PAGE_LIMIT
      requires data != null ==> data.Length >= BLOCK_SIZE && (Cached() ==> data as object != hash.slots)
      modifies queue, if queue == null then {} else queue.repr, if hash == null then {} else {hash.slots}, dev, data
      ensures Valid() && dev.isOpen
      ensures data == null ==> r == BlockParam
      ensures data != null && !Cached() ==> r == BlockDev
      ensures data == null || !Cached() ==> Contents() == old(Contents())
      ensures data != null && Cached() ==>
                && r == BlockOk
                && data[..BLOCK_SIZE] == View(old(Contents()), b)
                && Contents() == Reference(old(Contents()), queue.numberOfFrames, b)
      ensures forall x: nat :: View(Contents(), x) == View(old(Contents()), x)
      ensures Cached() ==> fresh(queue.repr - old(queue.repr))
    {
      if data == null {
        return BlockParam;
      }
      if queue == null {
        return BlockDev;
      }
      if hash == null {
        return BlockHash;
      }
      ReadView(Contents(), queue.numberOfFrames, b);
      r := queue.ReferencePage(hash, b);
      if r != BlockOk {
        return;
      }
      var page := queue.front;
      if page == null || page.page != b {
        return BlockRead;
      }
      var content := page.data;
      forall i | 0 <= i < BLOCK_SIZE {
        data[i] := content[i];
      }
      assert data[..BLOCK_SIZE] == content;
      return BlockOk;
    }

    /** Write block `b` from `data`: what `b` reads as changes, and nothing else. */
    method Write(b: nat, data: array?<bv8>) returns (r: BlockRtvl)
      requires Valid() && dev.isOpen && b < PAGE_LIMIT
      requires data != null ==> data.Length >= BLOCK_SIZE && (Cached() ==> data as object != hash.slots)
      modifies queue, if queue == null then {} else queue.repr, if hash == null then {} else {hash.slots}, dev
      ensures Valid() && dev.isOpen
      ensures data == null ==> r == BlockParam
      ensures data != null && !Cached() ==> r == BlockDev
      ensures data == null || !Cached() ==> Contents() == old(Contents())
      ensures data != null && Cached() ==>
                && r == BlockOk
                && Contents() == WriteFront(Reference(old(Contents()), queue.numberOfFrames, b),
                  old(data[..BLOCK_SIZE]))
                && forall x: nat :: View(Contents(), x) == if x == b then old(data[..BLOCK_SIZE])
                  else View(old(Contents()), x)
      ensures Cached() ==> fresh(queue.repr - old(queue.repr))
    {
      hide View, Reference;
      if data == null {
        return BlockParam;
      }
      if queue == null {
        return BlockDev;
      }
      if hash == null {
        return BlockHash;
      }
      var content := data[..BLOCK_SIZE];
      WriteView(Contents(), queue.numberOfFrames, b, content);
      r := queue.ReferencePage(hash, b);
      if r != BlockOk {
        return;
      }
      var page := queue.front;
      if page == null || page.page != b {
        return BlockFail;
      }
      assert queue.frames == [queue.frames[0]] + queue.frames[1..];
      queue.FillFront(hash, page, content, queue.frames[1..]);
      return BlockOk;
    }

    method Sync() returns (r: BlockRtvl)
      requires Valid() && dev.isOpen
      modifies dev
      ensures Valid() && dev.isOpen
      ensures !Cached() ==> r == BlockDev && Contents() == old(Contents())
      ensures Cached() ==> r == BlockOk && Contents() == SyncAsCoded(old(Contents()))
      ensures forall x: nat :: View(Contents(), x) == View(old(Contents()), x)
    {
      if queue == null {
        return BlockDev;
      }
      if hash == null {
        return BlockHash;
      }
      SyncExactness(Contents(), queue.numberOfFrames);
      r := queue.SyncQueue();
    }

    /** Sync, close the device, then drain the queue onto the closed device. dev_close has
        no return statement for success; `reportsOk` is what its caller happens to see.
        Everything written reaches the disk exactly when the rear frame was clean. */
    method Close(reportsOk: bool) returns (r: BlockRtvl)
      requires Valid() && dev.isOpen
      modifies this, queue, if queue == null then {} else queue.repr, if hash == null then {} else {hash.slots}, dev
      ensures Valid() && !dev.isOpen
      ensures r == if old(Cached()) && reportsOk then BlockOk else BlockFail
      ensures r == BlockOk ==> !Cached()
      ensures r == BlockFail ==> Cached() == old(Cached())
      ensures old(Cached()) ==> dev.disk == SyncAsCoded(old(Contents())).disk
      ensures !old(Cached()) ==> dev.disk == old(dev.disk)
      ensures var c := old(Contents());
              (forall x: nat :: BlockAt(dev.disk, x) == View(c, x))
              <==> c.frames == [] || (var rear := c.frames[|c.frames| - 1]; BlockAt(c.disk, rear.page) == rear.data)
    {
      var error := false;
      if queue != null {
        SyncExactness(Contents(), queue.numberOfFrames);
      }
      r := Sync();
      if r != BlockOk {
        error := true;
      }
      dev.Close();
      if !reportsOk {
        error := true;
      }
      if !error {
        var ok := queue.FreeQueue();
        queue := null;
        hash.FreeHash();
        hash := null;
      }
      return if error then BlockFail else BlockOk;
    }
  }

  /** Open, write one block, sync and close: every call reports success, and the device still
      holds the old block. */
  method WriteIsLost(dev: Device, b: nat, data: array<bv8>) returns (ok: bool)
    requires dev.isOpen && b < PAGE_LIMIT && data.Length >= BLOCK_SIZE && data[..BLOCK_SIZE] != BlockAt(dev.disk, b)
    modifies dev
    ensures ok && !dev.isOpen && BlockAt(dev.disk, b) == old(BlockAt(dev.disk, b)) != data[..BLOCK_SIZE]
  {
    hide View, Reference, SyncAsCoded, WellFormed, BlockAt;
    var cache := new BlockCache(dev);
    var start := cache.Open();
    ghost var d: Block := data[..BLOCK_SIZE];
    SyncCanMiss(dev.disk, CACHE_SIZE, b, d);
    var written := cache.Write(b, data);
    SyncsToTheSame(cache.Contents());
    var synced := cache.Sync();
    var closed := cache.Close(true);
    ok := start == BlockOk && written == BlockOk && synced == BlockOk && closed == BlockOk;
  }

  ghost predicate InPages(ops: seq<Op>) {
    forall op :: op in ops ==> op.Sync? || op.block < PAGE_LIMIT
  }

  lemma CacheFits(cache: BlockCache)
    requires cache.Valid() && cache.Cached()
    ensures cache.queue.numberOfFrames >= 1 && WellFormed(cache.Contents(), cache.queue.numberOfFrames)
  {
  }

  /** One call on an open cache. */
  method Call(cache: BlockCache, op: Op) returns (answer: seq<Block>)
    requires cache.Valid() && cache.Cached() && cache.dev.isOpen && InPages([op])
    modifies cache.queue, cache.queue.repr, cache.hash.slots, cache.dev
    ensures cache.Valid() && cache.dev.isOpen && fresh(cache.queue.repr - old(cache.queue.repr))
    ensures WellFormed(old(cache.Contents()), cache.queue.numberOfFrames)
    ensures (cache.Contents(), answer) == Step(old(cache.Contents()), cache.queue.numberOfFrames, op)
  {
    hide View, Reference, SyncAsCoded, WellFormed;
    CacheFits(cache);
    assert op in [op];
    match op {
      case Read(b) =>
        var buf := new bv8[BLOCK_SIZE];
        ReadView(cache.Contents(), cache.queue.numberOfFrames, b);
        var r := cache.Read(b, buf);
        return [buf[..BLOCK_SIZE]];
      case Write(b, d) =>
        var buf := new bv8[BLOCK_SIZE](i requires 0 <= i < BLOCK_SIZE => d[i]);
        assert buf[..BLOCK_SIZE] == d;
        var r := cache.Write(b, buf);
        return [];
      case Sync =>
        var r := cache.Sync();
        return [];
    }
  }

  /** Whatever is read, written and synced, in whatever order and however often blocks are
      evicted: on an open cache every read returns what a flat array of blocks would, and the
      cache then reads as that array. */
  method Calls(cache: BlockCache, ops: seq<Op>) returns (answers: seq<Block>)
    requires cache.Valid() && cache.Cached() && cache.dev.isOpen && InPages(ops)
    modifies cache.queue, cache.queue.repr, cache.hash.slots, cache.dev
    ensures cache.Valid() && cache.dev.isOpen && fresh(cache.queue.repr - old(cache.queue.repr))
    ensures WellFormed(old(cache.Contents()), cache.queue.numberOfFrames)
    ensures (cache.Contents(), answers) == Run(old(cache.Contents()), cache.queue.numberOfFrames, ops)
    ensures forall flat :: Shows(old(cache.Contents()), flat) ==>
              answers == RunFlat(flat, ops).1 && Shows(cache.Contents(), RunFlat(flat, ops).0)
    decreases |ops|
  {
    hide View, Reference, SyncAsCoded, WellFormed, Step, StepFlat, Shows;
    CacheFits(cache);
    if ops == [] {
      return [];
    }
    ghost var c, n := cache.Contents(), cache.queue.numberOfFrames;
    assert ops[0] in ops;
    var first := Call(cache, ops[0]);
    var rest := Calls(cache, ops[1..]);
    answers := first + rest;
    forall flat | Shows(c, flat)
      ensures answers == RunFlat(flat, ops).1 && Shows(cache.Contents(), RunFlat(flat, ops).0)
    {
      CacheIsInvisible(c, n, flat, ops);
    }
  }

  /** A second sync changes nothing. */
  lemma SyncsToTheSame(c: Cache)
    ensures |c.frames| == 1 ==> SyncAsCoded(SyncAsCoded(c)) == SyncAsCoded(c) == c
  {
    if |c.frames| == 1 {
      assert c.frames[..0] == [];
    }
  }
}
