// The block cache as a value: frames from front to rear, and the disk beneath them.
// The classes in LruCache.dfy are proved to compute these functions.
module CacheSpec {
  import opened Blocks
  import opened Counting
  import opened LruTrace

  datatype Frame = Frame(page: nat, data: Block)
  datatype Cache = Cache(frames: seq<Frame>, disk: Disk)

  function PagesOf(fs: seq<Frame>): (q: seq<nat>)
    ensures |q| == |fs|
  {
    seq(|fs|, i requires 0 <= i < |fs| => fs[i].page)
  }

  /** No page is cached twice. */
  ghost predicate DistinctPages(fs: seq<Frame>) {
    forall i, j :: 0 <= i < j < |fs| ==> fs[i].page != fs[j].page
  }

  ghost predicate WellFormed(c: Cache, n: nat) {
    n >= 1 && |c.frames| <= n && DistinctPages(c.frames)
  }

  /** The first frame that holds page `p`, or the number of frames. */
  function Position(fs: seq<Frame>, p: nat): (i: nat)
    ensures i <= |fs|
    ensures i < |fs| ==> fs[i].page == p
    ensures forall j :: 0 <= j < i ==> fs[j].page != p
  {
    if fs == [] || fs[0].page == p then 0 else 1 + Position(fs[1..], p)
  }

  /** What a caller of the cache sees at block `b`. */
  function View(c: Cache, b: nat): Block {
    var i := Position(c.frames, b);
    if i < |c.frames| then c.frames[i].data else BlockAt(c.disk, b)
  }

  ghost predicate Shows(c: Cache, flat: Disk) {
    forall b: nat :: View(c, b) == BlockAt(flat, b)
  }

  function Put(disk: Disk, f: Frame): Disk {
    disk[f.page := f.data]
  }

  /** Bring page `p` to the front, writing back the rear frame when no frame is free. */
  function Reference(c: Cache, n: nat, p: nat): (r: Cache)
    requires n >= 1 && |c.frames| <= n
    ensures |r.frames| >= 1 && r.frames[0].page == p
  {
    var fs, i := c.frames, Position(c.frames, p);
    if i < |fs| then
      Cache([fs[i]] + fs[..i] + fs[i + 1..], c.disk)
    else if |fs| == n then
      var d := Put(c.disk, fs[n - 1]);
      Cache([Frame(p, BlockAt(d, p))] + fs[..n - 1], d)
    else
      Cache([Frame(p, BlockAt(c.disk, p))] + fs, c.disk)
  }

  function WriteFront(c: Cache, d: Block): Cache
    requires c.frames != []
  {
    c.(frames := [Frame(c.frames[0].page, d)] + c.frames[1..])
  }

  /** Write frames back one after the other. */
  function WriteBack(disk: Disk, fs: seq<Frame>): Disk
    decreases |fs|
  {
    if fs == [] then disk else WriteBack(Put(disk, fs[0]), fs[1..])
  }

  /** Drain from the rear, as repeated dequeues do. */
  function DrainedDisk(disk: Disk, fs: seq<Frame>): Disk
    decreases |fs|
  {
    if fs == [] then disk else DrainedDisk(Put(disk, fs[|fs| - 1]), fs[..|fs| - 1])
  }

  /** The blocks written by a drain, in order. */
  function DrainedPages(fs: seq<Frame>): seq<nat> {
    if fs == [] then [] else [fs[|fs| - 1].page] + DrainedPages(fs[..|fs| - 1])
  }

  /** Sync as it is coded: the scan stops when it reaches the rear frame. */
  function SyncAsCoded(c: Cache): Cache {
    if c.frames == [] then c else c.(disk := WriteBack(c.disk, c.frames[..|c.frames| - 1]))
  }

  lemma ReferenceOfHit(c: Cache, n: nat, p: nat, k: nat)
    requires WellFormed(c, n) && k < |c.frames| && c.frames[k].page == p
    ensures Reference(c, n, p) == c.(frames := [c.frames[k]] + (c.frames[..k] + c.frames[k + 1..]))
  {
    assert Position(c.frames, p) == k;
  }

  lemma ReferenceOfMiss(c: Cache, n: nat, p: nat)
    requires WellFormed(c, n) && forall f :: f in c.frames ==> f.page != p
    ensures var full := |c.frames| == n;
            var d := if full then Put(c.disk, c.frames[n - 1]) else c.disk;
            Reference(c, n, p)
            == Cache([Frame(p, BlockAt(d, p))] + if full then c.frames[..n - 1] else c.frames, d)
  {
    assert Position(c.frames, p) == |c.frames|;
  }

  lemma DistinctPagesWithout(fs: seq<Frame>, k: nat)
    requires k < |fs| && DistinctPages(fs)
    ensures DistinctPages(fs[..k] + fs[k + 1..])
    ensures forall f :: f in fs[..k] + fs[k + 1..] ==> f.page != fs[k].page
  {
    var r := fs[..k] + fs[k + 1..];
    assert forall i :: 0 <= i < |r| ==> r[i] == fs[if i < k then i else i + 1];
  }

  lemma DistinctPagesWith(f: Frame, fs: seq<Frame>)
    requires DistinctPages(fs) && forall g :: g in fs ==> g.page != f.page
    ensures DistinctPages([f] + fs)
  {
    assert forall i :: 0 <= i < |fs| ==> fs[i] in fs;
  }

  lemma {:induction false} WriteBackMore(disk: Disk, fs: seq<Frame>, f: Frame)
    ensures WriteBack(disk, fs + [f]) == Put(WriteBack(disk, fs), f)
    decreases |fs|
  {
    if fs != [] {
      WriteBackMore(Put(disk, fs[0]), fs[1..], f);
      assert (fs + [f])[1..] == fs[1..] + [f];
    }
  }

  // ----- the cache is invisible -----

  /** The view of a block is the data of its frame, wherever that frame stands. */
  lemma ViewOfFrame(c: Cache, f: Frame)
    requires f in c.frames && DistinctPages(c.frames)
    ensures View(c, f.page) == f.data
  {
    var i :| 0 <= i < |c.frames| && c.frames[i] == f;
    assert Position(c.frames, f.page) == i;
  }

  lemma SameFramesSameView(c: Cache, d: Cache, b: nat)
    requires DistinctPages(c.frames) && DistinctPages(d.frames)
    requires forall f: Frame :: f.page == b ==> (f in c.frames <==> f in d.frames)
    requires (forall f: Frame :: f in c.frames ==> f.page != b) ==> BlockAt(c.disk, b) == BlockAt(d.disk, b)
    ensures View(c, b) == View(d, b)
  {
    var i := Position(c.frames, b);
    assert forall k :: 0 <= k < |d.frames| ==> d.frames[k] in d.frames;
    if i < |c.frames| {
      ViewOfFrame(d, c.frames[i]);
    }
  }

  lemma PagesDistinct(fs: seq<Frame>)
    ensures NoDup(PagesOf(fs)) <==> DistinctPages(fs)
  {
    if DistinctPages(fs) {
      assert NoDup(PagesOf(fs));
    } else {
      var i, j :| 0 <= i < j < |fs| && fs[i].page == fs[j].page;
      assert PagesOf(fs)[i] == PagesOf(fs)[j];
    }
  }

  lemma HitIsTouch(c: Cache, n: nat, p: nat)
    requires WellFormed(c, n) && Position(c.frames, p) < |c.frames|
    ensures PagesOf(Reference(c, n, p).frames) == Touch(PagesOf(c.frames), n, p)
  {
    var q, i := PagesOf(c.frames), Position(c.frames, p);
    PagesDistinct(c.frames);
    TouchOfCached(q, n, i);
    var r := PagesOf(Reference(c, n, p).frames);
    var t := [q[i]] + q[..i] + q[i + 1..];
    assert |r| == |t|;
    assert forall k :: 0 <= k < |r| ==> r[k] == t[k];
  }

  lemma MissIsTouch(c: Cache, n: nat, p: nat)
    requires WellFormed(c, n) && Position(c.frames, p) == |c.frames|
    ensures PagesOf(Reference(c, n, p).frames) == Touch(PagesOf(c.frames), n, p)
  {
    hide Reference, Position, Put;
    ReferenceOfMiss(c, n, p);
    PagesDistinct(c.frames);
    var q, r := PagesOf(c.frames), PagesOf(Reference(c, n, p).frames);
    assert p !in q;
    WithoutDistinct(q, p);
    var t := [p] + Cut(q, n - 1);
    assert |r| == |t| && forall k :: 0 <= k < |r| ==> r[k] == t[k];
  }

  lemma ReferenceIsTouch(c: Cache, n: nat, p: nat)
    requires WellFormed(c, n)
    ensures PagesOf(Reference(c, n, p).frames) == Touch(PagesOf(c.frames), n, p)
    ensures WellFormed(Reference(c, n, p), n)
  {
    hide Reference, Position, Touch, PagesOf;
    if Position(c.frames, p) < |c.frames| {
      HitIsTouch(c, n, p);
    } else {
      MissIsTouch(c, n, p);
    }
    PagesDistinct(c.frames);
    PagesDistinct(Reference(c, n, p).frames);
    TouchedDistinct(PagesOf(c.frames), n, p);
  }

  lemma TouchedDistinct(q: seq<nat>, n: nat, p: nat)
    requires n >= 1 && NoDup(q)
    ensures NoDup(Touch(q, n, p)) && |Touch(q, n, p)| <= n
  {
    WithoutDistinct(q, p);
  }

  lemma HitKeepsView(c: Cache, n: nat, p: nat, b: nat)
    requires WellFormed(c, n) && Position(c.frames, p) < |c.frames|
    ensures View(Reference(c, n, p), b) == View(c, b)
  {
    ReferenceIsTouch(c, n, p);
    var r, fs, i := Reference(c, n, p), c.frames, Position(c.frames, p);
    forall f ensures f in r.frames <==> f in fs {
      assert fs == fs[..i] + [fs[i]] + fs[i + 1..];
    }
    SameFramesSameView(c, r, b);
  }

  lemma UncachedView(c: Cache, b: nat)
    requires forall f :: f in c.frames ==> f.page != b
    ensures View(c, b) == BlockAt(c.disk, b)
  {
  }

  lemma MissKeepsView(c: Cache, n: nat, p: nat, b: nat)
    requires WellFormed(c, n) && Position(c.frames, p) == |c.frames|
    ensures View(Reference(c, n, p), b) == View(c, b)
  {
    hide Reference, View, PagesOf;
    ReferenceIsTouch(c, n, p);
    ReferenceOfMiss(c, n, p);
    hide Position;
    var r, fs := Reference(c, n, p), c.frames;
    var kept := if |fs| == n then fs[..n - 1] else fs;
    assert fs == kept + fs[|kept|..];
    assert r.frames == [r.frames[0]] + kept;
    if b == p {
      UncachedView(c, b);
      ViewOfFrame(r, r.frames[0]);
    } else if |fs| == n && b == fs[n - 1].page {
      ViewOfFrame(c, fs[n - 1]);
      UncachedView(r, b);
    } else {
      MissedFrames(fs, kept, r.frames[0], b);
      SameFramesSameView(c, r, b);
    }
  }

  lemma MissedFrames(fs: seq<Frame>, kept: seq<Frame>, first: Frame, b: nat)
    requires kept <= fs && first.page != b && forall i :: |kept| <= i < |fs| ==> fs[i].page != b
    ensures forall f: Frame :: f.page == b ==> (f in fs <==> f in [first] + kept)
  {
  }

  /** A reference, hit or miss, with or without eviction, changes nothing anyone can see. */
  lemma ReferenceKeepsView(c: Cache, n: nat, p: nat, b: nat)
    requires WellFormed(c, n)
    ensures View(Reference(c, n, p), b) == View(c, b)
  {
    if Position(c.frames, p) < |c.frames| {
      HitKeepsView(c, n, p, b);
    } else {
      MissKeepsView(c, n, p, b);
    }
  }

  lemma WriteFrontView(c: Cache, d: Block, b: nat)
    requires c.frames != [] && DistinctPages(c.frames)
    ensures View(WriteFront(c, d), b) == if b == c.frames[0].page then d else View(c, b)
    ensures PagesOf(WriteFront(c, d).frames) == PagesOf(c.frames)
  {
    var w := WriteFront(c, d);
    assert forall i :: 0 < i < |c.frames| ==> w.frames[i] == c.frames[i];
    if b == c.frames[0].page {
      ViewOfFrame(w, w.frames[0]);
    } else {
      assert forall f :: f in w.frames && f.page == b ==> f in c.frames;
      assert forall f :: f in c.frames && f.page == b ==> f in w.frames;
      SameFramesSameView(c, w, b);
    }
  }

  /** A block read changes no view. */
  lemma ReadView(c: Cache, n: nat, p: nat)
    requires WellFormed(c, n)
    ensures var r := Reference(c, n, p); r.frames[0] == Frame(p, View(c, p))
    ensures forall b: nat :: View(Reference(c, n, p), b) == View(c, b)
  {
    forall b: nat ensures View(Reference(c, n, p), b) == View(c, b) {
      ReferenceKeepsView(c, n, p, b);
    }
    ReferenceIsTouch(c, n, p);
    ViewOfFrame(Reference(c, n, p), Reference(c, n, p).frames[0]);
  }

  /** A block write changes the view of that block and of no other. */
  lemma WriteView(c: Cache, n: nat, p: nat, d: Block)
    requires WellFormed(c, n)
    ensures forall b: nat :: View(WriteFront(Reference(c, n, p), d), b) == if b == p then d else View(c, b)
  {
    ReferenceIsTouch(c, n, p);
    forall b: nat
      ensures View(WriteFront(Reference(c, n, p), d), b) == if b == p then d else View(c, b)
    {
      ReferenceKeepsView(c, n, p, b);
      WriteFrontView(Reference(c, n, p), d, b);
    }
  }

  lemma {:induction false} WriteBackAt(disk: Disk, fs: seq<Frame>, b: nat)
    requires DistinctPages(fs)
    ensures BlockAt(WriteBack(disk, fs), b) == View(Cache(fs, disk), b)
    decreases |fs|
  {
    if fs != [] {
      WriteBackAt(Put(disk, fs[0]), fs[1..], b);
      assert forall f :: f in fs[1..] ==> f.page != fs[0].page;
    }
  }

  lemma DrainedStep(disk: Disk, fs: seq<Frame>)
    requires fs != []
    ensures DrainedDisk(disk, fs) == DrainedDisk(Put(disk, fs[|fs| - 1]), fs[..|fs| - 1])
    ensures DrainedPages(fs) == [fs[|fs| - 1].page] + DrainedPages(fs[..|fs| - 1])
  {
  }

  lemma {:induction false} DrainedAt(disk: Disk, fs: seq<Frame>, b: nat)
    requires DistinctPages(fs)
    ensures BlockAt(DrainedDisk(disk, fs), b) == View(Cache(fs, disk), b)
    decreases |fs|
  {
    if fs != [] {
      DrainedLast(disk, fs, b);
      DrainedAt(Put(disk, fs[|fs| - 1]), fs[..|fs| - 1], b);
    }
  }

  /** Writing back the rear frame and dropping it changes no view. */
  lemma DrainedLast(disk: Disk, fs: seq<Frame>, b: nat)
    requires DistinctPages(fs) && fs != []
    ensures var m := |fs| - 1;
            && DrainedDisk(disk, fs) == DrainedDisk(Put(disk, fs[m]), fs[..m])
            && View(Cache(fs[..m], Put(disk, fs[m])), b) == View(Cache(fs, disk), b)
  {
    hide DrainedDisk, View;
    var m := |fs| - 1;
    DrainedStep(disk, fs);
    assert fs == fs[..m] + [fs[m]];
    if b == fs[m].page {
      ViewOfFrame(Cache(fs, disk), fs[m]);
      UncachedView(Cache(fs[..m], Put(disk, fs[m])), b);
    } else {
      SameFramesSameView(Cache(fs[..m], Put(disk, fs[m])), Cache(fs, disk), b);
    }
  }

  /** What the disk holds after a sync: every cached block but the one at the rear. */
  lemma SyncedAt(c: Cache, b: nat)
    requires c.frames != [] && DistinctPages(c.frames)
    ensures BlockAt(SyncAsCoded(c).disk, b)
            == if b == c.frames[|c.frames| - 1].page then BlockAt(c.disk, b) else View(c, b)
    ensures View(SyncAsCoded(c), b) == View(c, b)
  {
    var m := |c.frames| - 1;
    var fs := c.frames[..m];
    assert c.frames == fs + [c.frames[m]];
    WriteBackAt(c.disk, fs, b);
    if b != c.frames[m].page {
      SameFramesSameView(Cache(fs, c.disk), c, b);
    } else {
      assert forall f :: f in fs ==> f.page != b;
    }
  }

  /** Sync changes no view, and leaves the disk equal to the view everywhere exactly
      when the rear frame was clean already. */
  lemma SyncExactness(c: Cache, n: nat)
    requires WellFormed(c, n)
    ensures forall b: nat :: View(SyncAsCoded(c), b) == View(c, b)
    ensures (forall b: nat :: BlockAt(SyncAsCoded(c).disk, b) == View(c, b))
            <==> c.frames == [] || (var rear := c.frames[|c.frames| - 1]; BlockAt(c.disk, rear.page) == rear.data)
  {
    if c.frames != [] {
      var rear := c.frames[|c.frames| - 1];
      forall b: nat
        ensures BlockAt(SyncAsCoded(c).disk, b) == if b == rear.page then BlockAt(c.disk, b) else View(c, b)
        ensures View(SyncAsCoded(c), b) == View(c, b)
      {
        SyncedAt(c, b);
      }
      ViewOfFrame(c, rear);
    }
  }

  /** Write one block through a cold cache and sync: its frame is the rear one, so the disk
      keeps what it had. */
  lemma SyncCanMiss(disk: Disk, n: nat, b: nat, d: Block)
    requires n >= 1 && d != BlockAt(disk, b)
    ensures var c := WriteFront(Reference(Cache([], disk), n, b), d);
            WellFormed(c, n) && |c.frames| == 1 && View(c, b) == d
              && BlockAt(SyncAsCoded(c).disk, b) == BlockAt(disk, b) != d
  {
    var c := WriteFront(Reference(Cache([], disk), n, b), d);
    assert c.frames == [Frame(b, d)] && c.frames[..0] == [];
  }

  // ----- whole runs -----

  datatype Op = Read(block: nat) | Write(block: nat, data: Block) | Sync

  /** One call on the cache, and what a read returns. */
  function Step(c: Cache, n: nat, op: Op): (Cache, seq<Block>)
    requires n >= 1 && |c.frames| <= n
  {
    match op
    case Read(b) => var r := Reference(c, n, b); (r, [r.frames[0].data])
    case Write(b, d) => (WriteFront(Reference(c, n, b), d), [])
    case Sync => (SyncAsCoded(c), [])
  }

  function StepFlat(disk: Disk, op: Op): (Disk, seq<Block>) {
    match op
    case Read(b) => (disk, [BlockAt(disk, b)])
    case Write(b, d) => (disk[b := d], [])
    case Sync => (disk, [])
  }

  ghost function Run(c: Cache, n: nat, ops: seq<Op>): (Cache, seq<Block>)
    requires WellFormed(c, n)
    decreases |ops|
  {
    if ops == [] then (c, [])
    else
      StepWellFormed(c, n, ops[0]);
      var (c1, out) := Step(c, n, ops[0]);
      var (c2, outs) := Run(c1, n, ops[1..]);
      (c2, out + outs)
  }

  function RunFlat(disk: Disk, ops: seq<Op>): (Disk, seq<Block>)
    decreases |ops|
  {
    if ops == [] then (disk, [])
    else
      var (d1, out) := StepFlat(disk, ops[0]);
      var (d2, outs) := RunFlat(d1, ops[1..]);
      (d2, out + outs)
  }

  function Referenced(op: Op): seq<nat> {
    if op.Sync? then [] else [op.block]
  }

  function Trace(ops: seq<Op>): seq<nat> {
    if ops == [] then [] else Referenced(ops[0]) + Trace(ops[1..])
  }

  lemma StepWellFormed(c: Cache, n: nat, op: Op)
    requires WellFormed(c, n)
    ensures WellFormed(Step(c, n, op).0, n)
    ensures PagesOf(Step(c, n, op).0.frames)
            == if op.Sync? then PagesOf(c.frames) else Touch(PagesOf(c.frames), n, op.block)
  {
    if !op.Sync? {
      ReferenceIsTouch(c, n, op.block);
      if op.Write? {
        WriteFrontView(Reference(c, n, op.block), op.data, 0);
      }
    }
  }

  lemma StepRefinesFlat(c: Cache, n: nat, op: Op, flat: Disk)
    requires WellFormed(c, n) && Shows(c, flat)
    ensures Shows(Step(c, n, op).0, StepFlat(flat, op).0)
    ensures Step(c, n, op).1 == StepFlat(flat, op).1
  {
    StepWellFormed(c, n, op);
    var c', flat' := Step(c, n, op).0, StepFlat(flat, op).0;
    if op.Sync? {
      SyncExactness(c, n);
    } else {
      ReadView(c, n, op.block);
      if op.Write? {
        WriteView(c, n, op.block, op.data);
      }
    }
  }

  /** In any run, every read returns what a flat array of blocks would return, and the
      view at the end is that array, whatever was hit, missed, evicted or written back. */
  lemma {:induction false} CacheIsInvisible(c: Cache, n: nat, flat: Disk, ops: seq<Op>)
    requires WellFormed(c, n) && Shows(c, flat)
    ensures Run(c, n, ops).1 == RunFlat(flat, ops).1
    ensures Shows(Run(c, n, ops).0, RunFlat(flat, ops).0)
    ensures WellFormed(Run(c, n, ops).0, n)
    decreases |ops|
  {
    if ops != [] {
      StepWellFormed(c, n, ops[0]);
      StepRefinesFlat(c, n, ops[0], flat);
      CacheIsInvisible(Step(c, n, ops[0]).0, n, StepFlat(flat, ops[0]).0, ops[1..]);
    }
  }

  lemma {:induction false} FlatGrows(disk: Disk, ops: seq<Op>, op: Op)
    ensures RunFlat(disk, ops + [op]).0 == StepFlat(RunFlat(disk, ops).0, op).0
    ensures RunFlat(disk, ops + [op]).1 == RunFlat(disk, ops).1 + StepFlat(RunFlat(disk, ops).0, op).1
    decreases |ops|
  {
    if ops == [] {
      assert ops + [op] == [op];
    } else {
      FlatGrows(StepFlat(disk, ops[0]).0, ops[1..], op);
      assert (ops + [op])[1..] == ops[1..] + [op];
    }
  }

  /** Call `k` is the last write to block `b`; there is none if `k` is the number of calls. */
  ghost predicate LastWrite(ops: seq<Op>, b: nat, k: nat) {
    && k <= |ops|
    && (k < |ops| ==> ops[k].Write? && ops[k].block == b)
    && forall i :: 0 <= i < |ops| && (i > k || k == |ops|) ==> !(ops[i].Write? && ops[i].block == b)
  }

  lemma {:induction false} FlatHolds(disk: Disk, ops: seq<Op>, b: nat, k: nat)
    requires LastWrite(ops, b, k)
    ensures BlockAt(RunFlat(disk, ops).0, b) == if k < |ops| then ops[k].data else BlockAt(disk, b)
    decreases |ops|
  {
    if ops != [] {
      var less, op := ops[..|ops| - 1], ops[|ops| - 1];
      assert less + [op] == ops;
      FlatGrows(disk, less, op);
      if k == |ops| {
        FlatHolds(disk, less, b, |less|);
      } else if k < |less| {
        FlatHolds(disk, less, b, k);
      }
    }
  }

  /** In any run a read returns what was last written to its block, or what the block read as
      before the run; the other calls return nothing. */
  lemma ReadsLastWrite(c: Cache, n: nat, ops: seq<Op>, op: Op, k: nat)
    requires WellFormed(c, n) && (op.Read? ==> LastWrite(ops, op.block, k))
    ensures Run(c, n, ops + [op]).1
            == Run(c, n, ops).1
               + if !op.Read? then [] else [if k < |ops| then ops[k].data else View(c, op.block)]
  {
    var flat := WriteBack(c.disk, c.frames);
    forall b: nat ensures View(c, b) == BlockAt(flat, b) {
      WriteBackAt(c.disk, c.frames, b);
    }
    CacheIsInvisible(c, n, flat, ops);
    CacheIsInvisible(c, n, flat, ops + [op]);
    FlatGrows(flat, ops, op);
    if op.Read? {
      FlatHolds(flat, ops, op.block, k);
    }
  }

  /** The frames of a run follow the LRU trace of its references. */
  lemma {:induction false} RunFollowsTrace(c: Cache, n: nat, ops: seq<Op>)
    requires WellFormed(c, n)
    ensures PagesOf(Run(c, n, ops).0.frames) == QueueFrom(PagesOf(c.frames), n, Trace(ops))
    decreases |ops|
  {
    if ops != [] {
      StepWellFormed(c, n, ops[0]);
      RunFollowsTrace(Step(c, n, ops[0]).0, n, ops[1..]);
      assert Trace(ops) == Referenced(ops[0]) + Trace(ops[1..]);
      if ops[0].Sync? {
        assert Trace(ops) == Trace(ops[1..]);
      } else {
        assert Trace(ops)[0] == ops[0].block && Trace(ops)[1..] == Trace(ops[1..]);
      }
    }
  }

  /** From a cold cache, a block is held after a run exactly when fewer than `n` other
      blocks were read or written since it was last read or written. */
  lemma HeldAfterRun(disk: Disk, n: nat, ops: seq<Op>, b: nat)
    requires n >= 1
    ensures WellFormed(Cache([], disk), n)
    ensures b in PagesOf(Run(Cache([], disk), n, ops).0.frames)
            <==> b in Trace(ops) && |Since(Trace(ops), b)| < n
  {
    RunFollowsTrace(Cache([], disk), n, ops);
    QueueFromAfter([], n, Trace(ops));
    assert [] + Trace(ops) == Trace(ops);
    CachedIffRecentlyUsed(Trace(ops), n, b);
  }
}
