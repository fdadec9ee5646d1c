// Runs of klseek, kwrite and kread over several open files that share one volume: the
// chains, the cursors and the allocator together behave as one byte sequence for each file
// and one number, the blocks that are left for all of them.
module FileRuns {
  import opened Blocks
  import opened BlockMaps
  import opened FileChain
  import opened FileData
  import opened AllocSpec
  import opened Allocation
  import opened Volumes

  datatype Op = SeekOp(offset: int, whence: Whence) | WriteOp(data: seq<bv8>) | ReadOp(count: nat)

  /** A call on the open file with index `file`. */
  datatype Call = Call(file: nat, op: Op)

  datatype Outcome = Outcome(result: int, data: seq<bv8>)

  /** What a caller sees of an open file, and the blocks it has; `loose` after opening it and
      after each seek. */
  datatype View = View(contents: seq<bv8>, pos: nat, loose: bool, blocks: nat)

  /** The open files, and how many blocks are left for them. */
  datatype State = State(views: seq<View>, room: nat)

  // ----- a byte sequence with a position -----

  /** The write gets through with the blocks it has or can get. */
  predicate GetsThrough(v: View, d: seq<bv8>, room: nat) {
    Lasts(|v.contents|, v.pos, |d|, Capacity(v.blocks + room))
  }

  /** A call that gets through. */
  function Whole(v: View, op: Op): View {
    match op
    case SeekOp(offset, whence) =>
      if whence.SeekOther? then v
      else v.(pos := SeekTo(|v.contents|, v.pos, offset, whence), loose := true)
    case WriteOp(d) =>
      View(Written(v.contents, v.pos, d), v.pos + |d|, v.loose && Idle(|v.contents|, v.pos, |d|),
           Needs(v.blocks, |v.contents|, v.pos, |d|))
    case ReadOp(n) =>
      v.(pos := v.pos + n, loose := v.loose && n == 0)
  }

  /** A write that does not: it takes all the blocks there are. */
  function Cut(v: View, d: seq<bv8>, room: nat): View
    requires !GetsThrough(v, d, room)
  {
    var k := Through(|v.contents|, v.pos, Capacity(v.blocks + room));
    View(Partly(v.contents, v.pos, d, k), Stop(|v.contents|, v.pos, k),
         v.loose && (v.pos <= |v.contents| || k == 0), v.blocks + room)
  }

  predicate CutsShort(v: View, op: Op, room: nat) {
    op.WriteOp? && !GetsThrough(v, op.data, room)
  }

  function After(v: View, op: Op, room: nat): (w: View)
    ensures v.blocks <= w.blocks <= v.blocks + room
  {
    if CutsShort(v, op, room) then Cut(v, op.data, room)
    else
      NeedsFit(v, op, room);
      Whole(v, op)
  }

  lemma NeedsFit(v: View, op: Op, room: nat)
    requires !CutsShort(v, op, room)
    ensures v.blocks <= Whole(v, op).blocks <= v.blocks + room
  {
    if op.WriteOp? {
      LastsIff(|v.contents|, v.pos, |op.data|, v.blocks, room);
    }
  }

  function Answer(v: View, op: Op, room: nat): Outcome {
    match op
    case SeekOp(offset, whence) => Outcome(SeekTo(|v.contents|, v.pos, offset, whence), [])
    case WriteOp(d) => Outcome(if GetsThrough(v, d, room) then |d| + Gap(|v.contents|, v.pos) else -1, [])
    case ReadOp(n) => Outcome(n, if v.pos + n <= |v.contents| then v.contents[v.pos..v.pos + n] else [])
  }

  /** Reads stay inside the file, no transfer meets the short scan, no gap overflows the 32-bit
      step count, and no write finds just the one block that would be its map. */
  predicate ClearFrom(size: nat, pos: nat, loose: bool, empty: bool, op: Op, room: nat) {
    match op
    case SeekOp(_, _) => true
    case WriteOp(d) =>
      && !MissesOn(size, pos, loose, |d|) && pos < size + GAP_LIMIT
      && (Idle(size, pos, |d|) || !empty || room != 1)
    case ReadOp(n) => !MissesOn(size, pos, loose, n) && pos + n <= size
  }

  predicate Clear(v: View, op: Op, room: nat) {
    ClearFrom(|v.contents|, v.pos, v.loose, v.blocks == 0, op, room)
  }

  /** All that is not clear. */
  lemma NotClear(v: View, op: Op, room: nat)
    requires !Clear(v, op, room)
    ensures op.WriteOp? || op.ReadOp?
    ensures var size, count := |v.contents|, if op.WriteOp? then |op.data| else if op.ReadOp? then op.count else 0;
            || v.pos >= size + GAP_LIMIT
            || (v.loose && 0 < v.pos <= size && v.pos % MAP_BYTES == 0 && count > 0)
            || (v.loose && 0 < size < v.pos && size % MAP_BYTES == 0)
            || (if op.ReadOp? then v.pos + count > size else v.blocks == 0 && room == 1)
  {
  }

  function Step(s: State, c: Call): (t: State)
    ensures |t.views| == |s.views|
  {
    if c.file < |s.views| then
      var v := s.views[c.file];
      var w := After(v, c.op, s.room);
      State(s.views[c.file := w], s.room + v.blocks - w.blocks)
    else s
  }

  function Replay(s: State, script: seq<Call>): (t: State)
    ensures |t.views| == |s.views|
  {
    if script == [] then s else Step(Replay(s, script[..|script| - 1]), script[|script| - 1])
  }

  function Answers(s: State, script: seq<Call>): seq<Outcome> {
    if script == [] then []
    else
      var r, c := Replay(s, script[..|script| - 1]), script[|script| - 1];
      Answers(s, script[..|script| - 1]) + if c.file < |r.views| then [Answer(r.views[c.file], c.op, r.room)] else []
  }

  ghost predicate ClearRun(s: State, script: seq<Call>) {
    forall i {:trigger script[i]} :: 0 <= i < |script| ==>
      var r := Replay(s, script[..i]);
      script[i].file < |r.views| && Clear(r.views[script[i].file], script[i].op, r.room)
  }

  // ----- what the byte sequences promise -----

  function Total(vs: seq<View>): nat {
    if vs == [] then 0 else Total(vs[..|vs| - 1]) + vs[|vs| - 1].blocks
  }

  lemma {:induction false} TotalUpdated(vs: seq<View>, k: nat, w: View)
    requires k < |vs|
    ensures Total(vs[k := w]) == Total(vs) - vs[k].blocks + w.blocks
  {
    var n := |vs| - 1;
    if k == n {
      assert vs[k := w][..n] == vs[..n];
    } else {
      assert vs[k := w][..n] == vs[..n][k := w];
      TotalUpdated(vs[..n], k, w);
    }
  }

  /** However a run goes, the blocks of the files and those left add up to what there was. */
  lemma {:induction false} BlocksAreConserved(s: State, script: seq<Call>)
    ensures var r := Replay(s, script); r.room + Total(r.views) == s.room + Total(s.views) && r.room <= s.room
  {
    hide After;
    if script != [] {
      BlocksAreConserved(s, script[..|script| - 1]);
      var r, c := Replay(s, script[..|script| - 1]), script[|script| - 1];
      if c.file < |r.views| {
        TotalUpdated(r.views, c.file, After(r.views[c.file], c.op, r.room));
      }
    }
  }

  /** A write was cut short at some call of the script. */
  predicate SomeCut(s: State, script: seq<Call>) {
    script != [] &&
    var r, c := Replay(s, script[..|script| - 1]), script[|script| - 1];
    SomeCut(s, script[..|script| - 1]) || (c.file < |r.views| && CutsShort(r.views[c.file], c.op, r.room))
  }

  /** From the first write that is cut short on there is no room left. */
  lemma {:induction false} NoRoomOnceCut(s: State, script: seq<Call>)
    requires SomeCut(s, script)
    ensures Replay(s, script).room == 0
  {
    hide GetsThrough, Whole, Partly, Through, Stop;
    var r, c := Replay(s, script[..|script| - 1]), script[|script| - 1];
    if SomeCut(s, script[..|script| - 1]) {
      NoRoomOnceCut(s, script[..|script| - 1]);
    }
  }

  /** The calls of one file, in order. */
  function Mine(script: seq<Call>, k: nat): seq<Call> {
    if script == [] then []
    else
      var c := script[|script| - 1];
      Mine(script[..|script| - 1], k) + if c.file == k then [c] else []
  }

  function ReplayOne(v: View, script: seq<Call>): View {
    if script == [] then v else Whole(ReplayOne(v, script[..|script| - 1]), script[|script| - 1].op)
  }

  /** However calls interleave, a file is what its own calls make of it, as long as no write is
      cut short; and none is if there is room left in the end. */
  lemma {:induction false} FilesAreIndependent(s: State, script: seq<Call>, k: nat)
    requires k < |s.views|
    ensures Replay(s, script).room > 0 ==> !SomeCut(s, script)
    ensures !SomeCut(s, script) ==> Replay(s, script).views[k] == ReplayOne(s.views[k], Mine(script, k))
  {
    hide CutsShort, Whole, Cut;
    if SomeCut(s, script) {
      NoRoomOnceCut(s, script);
    } else if script != [] {
      FilesAreIndependent(s, script[..|script| - 1], k);
      var mine, c := Mine(script[..|script| - 1], k), script[|script| - 1];
      assert mine + [] == mine && (mine + [c])[..|mine|] == mine;
    }
  }

  /** Seeking back over what was written and reading it returns what was written. */
  lemma WriteSeekRead(v: View, d: seq<bv8>, room: nat)
    requires v.pos < POS_LIMIT && GetsThrough(v, d, room)
    ensures var w := After(After(v, WriteOp(d), room), SeekOp(v.pos, SeekSet), 0);
            Answer(w, ReadOp(|d|), 0) == Outcome(|d|, d)
  {
    hide GetsThrough;
  }

  /** Every byte a write does not cover stays, and the gap before it reads as zeros. */
  lemma WriteFrame(v: View, d: seq<bv8>, room: nat, o: nat)
    requires GetsThrough(v, d, room)
    ensures var w := After(v, WriteOp(d), room).contents;
            && |w| == (if v.pos + |d| > |v.contents| then v.pos + |d| else |v.contents|)
            && (o < |w| ==>
                 w[o] == if v.pos <= o < v.pos + |d| then d[o - v.pos]
                         else if o < |v.contents| then v.contents[o] else 0)
  {
    hide GetsThrough, Needs;
  }

  /** What a write answers: -1 if it is cut short, and if not, by how much the file got longer if
      the position was past its end, or how many bytes were written. */
  lemma ResultCounts(v: View, d: seq<bv8>, room: nat)
    ensures var w, r := After(v, WriteOp(d), room), Answer(v, WriteOp(d), room).result;
            if !GetsThrough(v, d, room) then r == -1
            else r == if v.pos > |v.contents| then |w.contents| - |v.contents| else |d|
  {
    hide GetsThrough, Cut, Needs;
  }

  /** A write that is cut short replaces the bytes before the end of the last block there is,
      and no others, and keeps the size; or, past the end, it adds zeros up to within 512 bytes
      of the end of that block or up to its position. */
  lemma ShortFrame(v: View, d: seq<bv8>, room: nat, o: nat)
    requires !GetsThrough(v, d, room)
    ensures var c, w, cap := v.contents, After(v, WriteOp(d), room), Capacity(v.blocks + room);
            && |c| <= |w.contents| && cap <= v.pos + |d|
            && (if v.pos <= |c| then |w.contents| == |c| && w.pos == v.pos
                else
                  && |w.contents| <= v.pos
                  && (|w.contents| < v.pos ==>
                       (|w.contents| - |c|) % BLOCK_SIZE == 0 && cap <= |w.contents| + BLOCK_SIZE)
                  && if |w.contents| == |c| then w.pos == v.pos else w.pos == |w.contents| < cap)
            && (o < |w.contents| ==>
                 w.contents[o] == if v.pos <= o < cap && o < |c| then d[o - v.pos] else if o < |c| then c[o] else 0)
  {
    var c, cap := v.contents, Capacity(v.blocks + room);
    if v.pos <= |c| {
      SpliceSize(c, v.pos, d[..Through(|c|, v.pos, cap)]);
    } else {
      FilledExactly(|c|, v.pos, cap);
    }
  }

  /** A transfer at the position of a file replaces the bytes it was asked to, whatever they
      are, if and only if it does not start without a cursor at a positive multiple of 65024. */
  lemma LandsExactlyIff(f: OpenFile)
    requires f.Valid() && f.inode.pos <= f.inode.size
    ensures var c, pos := f.contents, f.inode.pos;
            (forall d: seq<bv8> :: Splice(c, f.Landing(pos), d) == Splice(c, pos, d))
            <==> !(f.Loose() && pos > 0 && pos % MAP_BYTES == 0)
  {
    var c, pos := f.contents, f.inode.pos;
    if f.Loose() && pos > 0 && pos % MAP_BYTES == 0 {
      var off := f.Landing(pos);
      var x: bv8 := if c[off] == 0 then 1 else 0;
      assert Splice(c, off, [x])[off] == x && Splice(c, pos, [x])[off] == c[off];
    }
  }

  /** Write one byte after seeking to the end of a file of 65024 zeros: the call succeeds, and
      byte 0 of the file changes, which no write at the end changes. */
  method SeekThenWriteMisses(f: OpenFile)
    requires f.Valid() && f.contents == Zeros(MAP_BYTES)
    modifies f, f.alloc, f.alloc.window, f.vol
    ensures f.inode.pos == f.inode.size == MAP_BYTES + 1
    ensures f.rep == old(f.rep) && f.rep.blks != [] && BlockAt(f.vol.blocks, f.rep.blks[0])[0] == 1
    ensures Written(old(f.contents), MAP_BYTES, [1])[0] == 0
  {
    hide OpenFile.Valid, OpenFile.Bare, OpenFile.Mounted, OpenFile.Since, OpenFile.Now, OpenFile.UntouchedSince,
      Allocator.Room, Splice, HoldsBytes, Capacity, BlocksFor, Max, BlocksOf;
    f.ValidSize();
    var p := f.Seek(0, SeekEnd);
    HasBlocks(f);
    var buf := new bv8[1](_ => 1);
    OneByteSpliced(f.contents, buf[..1]);
    var ok, n := f.ReadWrite(f.inode.pos, 1, buf, false);
    HeldByte(f.vol.blocks, f.rep.blks, Splice(old(f.contents), 0, [1]), 0, 0);
  }

  /** Wherever blocks can be had, handing out all of them but one and then writing one byte to a
      file that has none leaves that file bare. */
  method LastBlockMakesBare(vol: Volume, alloc: Allocator, self: nat) returns (f: OpenFile)
    requires alloc.vol == vol && alloc.Valid() && alloc.mapEnd <= alloc.regionStart && alloc.Room() > 0
    requires alloc.regionStart + BITS * alloc.Size() <= WORD_LIMIT && self < alloc.regionStart
    requires self in vol.inodes && vol.inodes[self].self == self
    requires vol.inodes[self].size == 0 && vol.inodes[self].next == INODE_NULL
    modifies alloc, alloc.window, vol
    ensures fresh(f) && f.vol == vol && f.inode.self == self && f.Bare() && !f.Valid()
  {
    hide Allocator.Room, Chain, HoldsBytes, OpenFile.Bare, OpenFile.Since, OpenFile.Now, Capacity, Lasts, Needs,
      Through, Partly, InodesKept, Grown, Safe, MapBits;
    var room := alloc.RoomLeft();
    while room > 1
      invariant alloc.Valid() && room == alloc.Room() > 0 && vol.inodes == old(vol.inodes)
    {
      var block := alloc.GetBlock();
      room := room - 1;
    }
    f := new OpenFile(vol, alloc, self, false, Rep([], []), []);
    var buf := new bv8[1](_ => 1);
    f.CallMissesIff(1);
    f.NowIs();
    ghost var s := f.Now();
    var r := f.Write(buf, 1);
    f.SinceParts(s);
  }

  lemma HasBlocks(f: OpenFile)
    requires f.Valid() && f.contents != []
    ensures f.rep.blks != [] && f.inode.next != INODE_NULL
  {
  }

  lemma OneByteSpliced(c: seq<bv8>, d: seq<bv8>)
    requires |c| == MAP_BYTES && c[0] == 0 && |d| == 1 && d[0] == 1
    ensures d == [1] && |Splice(c, 0, d)| == MAP_BYTES && Splice(c, 0, d)[0] == 1
    ensures Written(c, MAP_BYTES, d)[0] == 0
  {
  }

  // ----- the open files -----

  ghost function ViewOf(f: OpenFile): View
    reads f`contents, f`inode, f`rep
  {
    View(f.contents, f.inode.pos, f.Loose(), |BlocksOf(f.rep)|)
  }

  /** Files on one volume, each valid and no two sharing an object or a block. */
  ghost predicate Together(files: seq<OpenFile>, vol: Volume, alloc: Allocator)
    reads files, alloc, vol`blocks, alloc.window
  {
    && (forall i :: 0 <= i < |files| ==> files[i].vol == vol && files[i].alloc == alloc && files[i].Valid())
    && (forall i, j :: 0 <= i < |files| && 0 <= j < |files| && i != j ==>
          files[i] != files[j] && Apart(files[i].rep, files[j].rep))
  }

  ghost function StateOf(files: seq<OpenFile>, alloc: Allocator): (s: State)
    reads files, alloc
    ensures |s.views| == |files|
  {
    State(seq(|files|, i requires 0 <= i < |files| reads files => ViewOf(files[i])), alloc.Room())
  }

  /** A clear call on a file does what it does to the byte sequence. */
  method Perform(f: OpenFile, op: Op) returns (a: Outcome)
    requires f.Valid() && Clear(ViewOf(f), op, f.alloc.Room())
    modifies f, f.alloc, f.alloc.window, f.vol
    ensures f.Valid() && f.Since(old(f.Now()))
    ensures ViewOf(f) == After(old(ViewOf(f)), op, old(f.alloc.Room()))
    ensures a == Answer(old(ViewOf(f)), op, old(f.alloc.Room()))
  {
    hide OpenFile.Valid, OpenFile.Bare, OpenFile.Mounted, OpenFile.Since, SameBlocks, OpenFile.CallMisses,
      OpenFile.Misses, MissesOn, Splice, Written, Partly, Allocator.Room, Capacity, BlocksOf, Needs, Lasts, Through,
      Reach, Stop;
    f.SinceStart();
    f.ValidSize();
    f.StockOfOne();
    match op {
      case SeekOp(offset, whence) =>
        ghost var s := f.Now();
        var r := f.Seek(offset, whence);
        f.SinceThen(s);
        a := Outcome(r, []);
      case WriteOp(d) =>
        f.CallMissesIff(|d|);
        var buf := new bv8[|d|](i requires 0 <= i < |d| => d[i]);
        assert buf[..|d|] == d;
        ghost var s := f.Now();
        var r := f.Write(buf, |d|);
        f.SinceThen(s);
        a := Outcome(if r < 0 then -1 else r, []);
      case ReadOp(n) =>
        f.CallMissesIff(n);
        var buf := new bv8[n];
        var r := f.Read(buf, n);
        a := Outcome(r, buf[..n]);
    }
  }

  /** One call among several open files: it does what it does to a byte sequence, the blocks it
      takes come off those that are left, and the others keep their bytes and positions. */
  method PerformAmong(files: seq<OpenFile>, k: nat, op: Op, vol: Volume, alloc: Allocator) returns (a: Outcome)
    requires Together(files, vol, alloc) && k < |files|
    requires Clear(StateOf(files, alloc).views[k], op, alloc.Room())
    modifies files[k], alloc, alloc.window, vol
    ensures Together(files, vol, alloc) && (old(alloc.IsExact()) ==> alloc.IsExact())
    ensures StateOf(files, alloc) == Step(old(StateOf(files, alloc)), Call(k, op))
    ensures a == Answer(old(StateOf(files, alloc).views[k]), op, old(alloc.Room()))
  {
    hide OpenFile.Valid, OpenFile.Bare, OpenFile.Mounted, Grown, OpenFile.Loose, After, Clear, Answer, Apart,
      Allocator.Room, Allocator.IsExact, BlocksOf;
    var f := files[k];
    a := Perform(f, op);
    forall i | 0 <= i < |files| && i != k
      ensures files[i].Valid() && Apart(files[i].rep, f.rep) && Apart(f.rep, files[i].rep)
      ensures StateOf(files, alloc).views[i] == old(StateOf(files, alloc).views[i])
    {
      f.OthersKept(files[i]);
      ApartBothWays(files[i].rep, f.rep);
    }
  }

  lemma ApartBothWays(r: Rep, s: Rep)
    requires Apart(r, s)
    ensures Apart(s, r)
  {
  }

  method IsClear(files: seq<OpenFile>, k: nat, op: Op, vol: Volume, alloc: Allocator) returns (clear: bool)
    requires Together(files, vol, alloc) && k < |files|
    ensures clear <==> Clear(StateOf(files, alloc).views[k], op, alloc.Room())
  {
    hide OpenFile.Valid, ClearFrom, BlocksOf, Allocator.Room;
    var f := files[k];
    f.ValidSize();
    f.NoBlocksIff();
    var room := alloc.RoomLeft();
    clear := ClearFrom(f.inode.size, f.inode.pos, f.Loose(), f.inode.next == INODE_NULL, op, room);
  }

  /** Run a script over several open files. Every byte, position and answer, and the blocks left,
      are those of plain byte sequences; writes without enough blocks are cut short at the last
      of them and the run goes on. It stops only before a call that is not clear. */
  method Run(files: seq<OpenFile>, script: seq<Call>, vol: Volume, alloc: Allocator)
    returns (done: nat, answers: seq<Outcome>)
    requires Together(files, vol, alloc) && forall c :: c in script ==> c.file < |files|
    modifies files, alloc, alloc.window, vol
    ensures Together(files, vol, alloc) && (old(alloc.IsExact()) ==> alloc.IsExact())
    ensures done <= |script| && StateOf(files, alloc) == Replay(old(StateOf(files, alloc)), script[..done])
    ensures answers == Answers(old(StateOf(files, alloc)), script[..done])
    ensures done < |script| ==>
              !Clear(StateOf(files, alloc).views[script[done].file], script[done].op, alloc.Room())
    ensures ClearRun(old(StateOf(files, alloc)), script) ==> done == |script|
  {
    hide OpenFile.Valid, ViewOf, StateOf, Together, Clear, Step, Replay, Answer, Answers, Allocator.Room,
      Allocator.IsExact;
    ghost var s := StateOf(files, alloc);
    done, answers := 0, [];
    NothingYet(s, script);
    while done < |script|
      invariant done <= |script| && Together(files, vol, alloc) && (old(alloc.IsExact()) ==> alloc.IsExact())
      invariant StateOf(files, alloc) == Replay(s, script[..done]) && answers == Answers(s, script[..done])
    {
      var c := script[done];
      RoomOfState(files, alloc);
      var clear := IsClear(files, c.file, c.op, vol, alloc);
      if !clear {
        return;
      }
      var a := PerformAmong(files, c.file, c.op, vol, alloc);
      OneMore(s, script, done);
      answers, done := answers + [a], done + 1;
    }
    assert script[..done] == script;
  }

  lemma RoomOfState(files: seq<OpenFile>, alloc: Allocator)
    ensures StateOf(files, alloc).room == alloc.Room()
  {
  }

  lemma NothingYet(s: State, script: seq<Call>)
    ensures Replay(s, script[..0]) == s && Answers(s, script[..0]) == []
  {
  }

  /** One more call. */
  lemma OneMore(s: State, script: seq<Call>, n: nat)
    requires n < |script| && script[n].file < |s.views|
    ensures var r, c := Replay(s, script[..n]), script[n];
            && Replay(s, script[..n + 1]) == Step(r, c)
            && Answers(s, script[..n + 1]) == Answers(s, script[..n]) + [Answer(r.views[c.file], c.op, r.room)]
  {
    hide Step, Answer;
    assert script[..n + 1][..n] == script[..n];
  }
}
