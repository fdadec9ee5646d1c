// The bitmap allocators of inode.c as a value: the map blocks stored on disk, one of
// them loaded in a window, and a cursor into that window. The class in Allocator.dfy is
// proved to compute Get and Free; what follows is proved of whole runs of them.
module AllocSpec {
  import opened Wrappers
  import opened Counting

  // inode.c steps bits modulo DEV_BLOCK_SIZE: 512 bits of each map block are used.
  const BITS := 512

  type Bits = s: seq<bool> | |s| == BITS witness seq(BITS, _ => false)

  /** `ptr` counts map blocks from the start of the map. */
  datatype MapState = MapState(store: seq<Bits>, window: Bits, ptr: nat, bit: nat)

  predicate WellFormed(s: MapState) {
    s.ptr < |s.store| && s.bit < BITS
  }

  function FirstClear(b: Bits, from: nat): (r: nat)
    requires from <= BITS
    ensures from <= r <= BITS
    ensures r < BITS ==> !b[r]
    decreases |b| - from
  {
    if from == BITS || !b[from] then from else FirstClear(b, from + 1)
  }

  lemma {:induction false} SetBeforeFirstClear(b: Bits, from: nat)
    requires from <= BITS
    ensures forall k :: from <= k < FirstClear(b, from) ==> b[k]
    decreases |b| - from
  {
    if from < BITS && b[from] {
      SetBeforeFirstClear(b, from + 1);
    }
  }

  predicate Full(b: Bits) {
    FirstClear(b, 0) == BITS
  }

  lemma FullMeansAllSet(b: Bits)
    ensures Full(b) <==> forall k :: 0 <= k < BITS ==> b[k]
  {
    SetBeforeFirstClear(b, 0);
  }

  function FirstOpen(store: seq<Bits>, from: nat): (r: nat)
    requires from <= |store|
    ensures from <= r <= |store|
    ensures r < |store| ==> !Full(store[r])
    decreases |store| - from
  {
    if from == |store| || !Full(store[from]) then from else FirstOpen(store, from + 1)
  }

  lemma {:induction false} FullBeforeFirstOpen(store: seq<Bits>, from: nat)
    requires from <= |store|
    ensures forall q :: from <= q < FirstOpen(store, from) ==> Full(store[q])
    decreases |store| - from
  {
    if from < |store| && Full(store[from]) {
      FullBeforeFirstOpen(store, from + 1);
    }
  }

  /** Load map block `q` and put the cursor on its first clear bit. */
  function At(store: seq<Bits>, q: nat): (t: MapState)
    requires q < |store| && !Full(store[q])
    ensures WellFormed(t) && !t.window[t.bit]
  {
    MapState(store, store[q], q, FirstClear(store[q], 0))
  }

  /** Where the search stops: the rest of the window first, then the later map blocks,
      then all of them from the first. */
  function Find(s: MapState): (r: Option<MapState>)
    requires WellFormed(s)
    ensures r.Some? ==> WellFormed(r.value) && r.value.store == s.store && !r.value.window[r.value.bit]
    ensures r.Some? ==> r.value.window == s.store[r.value.ptr] || (r.value.ptr == s.ptr && r.value.window == s.window)
    ensures r.None? <==> FirstClear(s.window, s.bit) == BITS && FirstOpen(s.store, 0) == |s.store|
  {
    var b := FirstClear(s.window, s.bit);
    if b < BITS then Some(s.(bit := b))
    else
      var q := FirstOpen(s.store, s.ptr + 1);
      if q < |s.store| then
        FullBeforeFirstOpen(s.store, 0);
        Some(At(s.store, q))
      else
        var p := FirstOpen(s.store, 0);
        if p < |s.store| then Some(At(s.store, p)) else None
  }

  /** Set the bit under the cursor and write the window back to its map block. */
  function Claim(t: MapState): MapState
    requires WellFormed(t)
  {
    var w := t.window[t.bit := true];
    MapState(t.store[t.ptr := w], w, t.ptr, t.bit)
  }

  /** Allocate. Blocks are numbered from the start of the region the map describes. */
  function Get(s: MapState): (MapState, Option<nat>)
    requires WellFormed(s)
  {
    match Find(s)
    case None => (MapState(s.store, s.store[0], 0, 0), None)
    case Some(t) => (Claim(t), Some(t.ptr * BITS + t.bit))
  }

  /** Free: load the map block of `n` unless it is loaded, and clear the bit in the window.
      Nothing is written to the store. */
  function Free(s: MapState, n: nat): MapState
    requires n < BITS * |s.store|
  {
    var q, b := n / BITS, n % BITS;
    var w := if q == s.ptr then s.window else s.store[q];
    MapState(s.store, w[b := false], q, b)
  }

  function Stored(s: MapState, n: nat): bool
    requires n < BITS * |s.store|
  {
    s.store[n / BITS][n % BITS]
  }

  /** The bit an allocator call would see: the window hides the map block it was loaded from. */
  function Current(s: MapState, n: nat): bool
    requires WellFormed(s) && n < BITS * |s.store|
  {
    if n / BITS == s.ptr then s.window[n % BITS] else Stored(s, n)
  }

  lemma Position(q: nat, b: nat, size: nat)
    requires q < size && b < BITS
    ensures (q * BITS + b) / BITS == q && (q * BITS + b) % BITS == b && q * BITS + b < BITS * size
  {
  }

  lemma NothingFound(s: MapState)
    requires WellFormed(s)
    ensures Find(s).None? <==>
              && (forall n :: 0 <= n < BITS * |s.store| ==> Stored(s, n))
              && (forall k :: s.bit <= k < BITS ==> s.window[k])
  {
    SetBeforeFirstClear(s.window, s.bit);
    FullBeforeFirstOpen(s.store, 0);
    if forall n :: 0 <= n < BITS * |s.store| ==> Stored(s, n) {
      forall q | 0 <= q < |s.store| ensures Full(s.store[q]) {
        forall k | 0 <= k < BITS ensures s.store[q][k] {
          Position(q, k, |s.store|);
          assert Stored(s, q * BITS + k);
        }
        FullMeansAllSet(s.store[q]);
      }
    }
    if Find(s).None? {
      forall n | 0 <= n < BITS * |s.store| ensures Stored(s, n) {
        FullMeansAllSet(s.store[n / BITS]);
        assert Full(s.store[n / BITS]);
      }
    }
  }

  // ----- the order of the search -----

  /** Something is clear in the window from the cursor on. */
  ghost predicate ClearAhead(s: MapState)
    requires WellFormed(s)
  {
    exists k :: s.bit <= k < BITS && !s.window[k]
  }

  /** The blocks from `lo` up to `hi` show set on the stored map. */
  ghost predicate TakenFrom(s: MapState, lo: nat, hi: nat)
    requires hi <= BITS * |s.store|
  {
    forall n :: lo <= n < hi ==> Stored(s, n)
  }

  /** A get takes the first clear bit of the window from the cursor on; if there is none, the
      first that the stored map shows behind the window, and then the first from the start. */
  lemma GetInOrder(s: MapState)
    requires WellFormed(s) && Get(s).1.Some?
    ensures var n := Get(s).1.value;
            var q, b := n / BITS, n % BITS;
            && n < BITS * |s.store|
            && if ClearAhead(s) then
                 q == s.ptr && s.bit <= b && !s.window[b] && forall k :: s.bit <= k < b ==> s.window[k]
               else
                 && !Stored(s, n)
                 && if q > s.ptr then TakenFrom(s, BITS * (s.ptr + 1), n)
                    else TakenFrom(s, BITS * (s.ptr + 1), BITS * |s.store|) && TakenFrom(s, 0, n)
  {
    SetBeforeFirstClear(s.window, s.bit);
    var t := Find(s).value;
    Position(t.ptr, t.bit, |s.store|);
    if !ClearAhead(s) {
      SetBeforeFirstClear(s.store[t.ptr], 0);
      OpenAfterTaken(s, s.ptr + 1);
      OpenAfterTaken(s, 0);
      forall m | BITS * t.ptr <= m < BITS * t.ptr + t.bit ensures Stored(s, m) {
        assert m / BITS == t.ptr;
      }
    }
  }

  lemma OpenAfterTaken(s: MapState, from: nat)
    requires from <= |s.store|
    ensures TakenFrom(s, BITS * from, BITS * FirstOpen(s.store, from))
  {
    var r := FirstOpen(s.store, from);
    FullBeforeFirstOpen(s.store, from);
    forall n | BITS * from <= n < BITS * r ensures Stored(s, n) {
      assert from <= n / BITS < r;
      FullMeansAllSet(s.store[n / BITS]);
    }
  }

  /** After it the cursor is at that block, which shows set; if the window was left, all others
      show what the stored map said. */
  lemma GetMoves(s: MapState, m: nat)
    requires WellFormed(s) && Get(s).1.Some? && m < BITS * |s.store|
    ensures var t, n := Get(s).0, Get(s).1.value;
            && WellFormed(t) && |t.store| == |s.store| && t.ptr * BITS + t.bit == n
            && Current(t, m) == (m == n || if ClearAhead(s) then Current(s, m) else Stored(s, m))
            && (m / BITS == t.ptr ==> Stored(t, m) == Current(t, m))
            && (m / BITS != t.ptr ==> Stored(t, m) == Stored(s, m))
  {
    SetBeforeFirstClear(s.window, s.bit);
    var t := Find(s).value;
    Position(t.ptr, t.bit, |s.store|);
    if m / BITS == t.ptr && m % BITS == t.bit {
      assert m == t.ptr * BITS + t.bit;
    }
    if ClearAhead(s) && m / BITS != s.ptr {
      assert Current(s, m) == Stored(s, m);
    }
  }

  /** One that fails forgets the window: what was freed in it and not written back is lost. */
  lemma GetFails(s: MapState, m: nat)
    requires WellFormed(s) && Get(s).1.None? && m < BITS * |s.store|
    ensures var t := Get(s).0;
            && WellFormed(t) && t.store == s.store && t.ptr == 0 && t.bit == 0
            && Current(t, m) && Stored(s, m)
  {
    NothingFound(s);
    assert Stored(s, m);
  }

  /** A free puts the cursor at its block, which shows clear, and leaves the stored map; the
      window goes on showing what it did, unless it has to be left for another. */
  lemma FreeMoves(s: MapState, n: nat, m: nat)
    requires WellFormed(s) && n < BITS * |s.store| && m < BITS * |s.store|
    ensures var t := Free(s, n);
            && WellFormed(t) && t.store == s.store && t.ptr * BITS + t.bit == n
            && Current(t, m) == (m != n && if n / BITS == s.ptr then Current(s, m) else Stored(s, m))
  {
    assert m / BITS == n / BITS && m % BITS == n % BITS ==> m == n;
  }

  // ----- no block is handed out twice -----

  /** Every live block is set in the window if its map block is loaded, and in the store;
      the window never has a bit the store lacks. */
  ghost predicate Safe(s: MapState, live: set<nat>) {
    && WellFormed(s)
    && (forall n :: n in live ==> n < BITS * |s.store| && Current(s, n) && Stored(s, n))
    && (forall k :: 0 <= k < BITS && s.window[k] ==> s.store[s.ptr][k])
  }

  datatype Op = Alloc | Release(block: nat)

  ghost predicate InRange(s: MapState, op: Op) {
    op.Release? ==> op.block < BITS * |s.store|
  }

  ghost function Step(s: MapState, op: Op): MapState
    requires WellFormed(s) && InRange(s, op)
  {
    if op.Alloc? then Get(s).0 else Free(s, op.block)
  }

  ghost function LiveAfter(s: MapState, live: set<nat>, op: Op): set<nat>
    requires WellFormed(s)
  {
    match op
    case Alloc => if Get(s).1.Some? then live + {Get(s).1.value} else live
    case Release(n) => live - {n}
  }

  /** In the run `ops` from `s`, every block handed out is in range and not live then. */
  ghost predicate NeverTwice(s: MapState, live: set<nat>, ops: seq<Op>)
    decreases |ops|
  {
    ops != [] && WellFormed(s) && InRange(s, ops[0]) ==>
      && (ops[0].Alloc? && Get(s).1.Some? ==> Get(s).1.value < BITS * |s.store| && Get(s).1.value !in live)
      && NeverTwice(Step(s, ops[0]), LiveAfter(s, live, ops[0]), ops[1..])
  }

  lemma GetIsSafe(s: MapState, live: set<nat>)
    requires Safe(s, live)
    ensures Safe(Get(s).0, LiveAfter(s, live, Alloc))
    ensures Get(s).1.Some? ==>
              var n := Get(s).1.value;
              n !in live && n < BITS * |s.store| && !Current(Find(s).value, n) && Current(Get(s).0, n)
  {
    var r := Find(s);
    if r.Some? {
      var t := r.value;
      var n := t.ptr * BITS + t.bit;
      Position(t.ptr, t.bit, |s.store|);
      assert n !in live;
      var u := Claim(t);
      forall m | m in live + {n} ensures m < BITS * |u.store| && Current(u, m) && Stored(u, m) {
        if m / BITS == t.ptr && m % BITS == t.bit {
          assert m == n;
        }
      }
    }
  }

  lemma FreeIsSafe(s: MapState, live: set<nat>, n: nat)
    requires Safe(s, live) && n < BITS * |s.store|
    ensures Safe(Free(s, n), live - {n})
  {
    var u := Free(s, n);
    forall m | m in live - {n} ensures Current(u, m) && Stored(u, m) {
      assert m / BITS != n / BITS || m % BITS != n % BITS;
    }
  }

  lemma {:induction false} NoDoubleAllocation(s: MapState, live: set<nat>, ops: seq<Op>)
    requires Safe(s, live)
    ensures NeverTwice(s, live, ops)
    decreases |ops|
  {
    if ops != [] && InRange(s, ops[0]) {
      if ops[0].Alloc? {
        GetIsSafe(s, live);
      } else {
        FreeIsSafe(s, live, ops[0].block);
      }
      NoDoubleAllocation(Step(s, ops[0]), LiveAfter(s, live, ops[0]), ops[1..]);
    }
  }

  /** What inode_create_fs and inode_dev_open leave behind. */
  function Blank(size: nat): MapState {
    var none := seq(BITS, _ => false);
    MapState(seq(size, _ => none), none, 0, 0)
  }

  lemma FreshMapIsSafe(size: nat, ops: seq<Op>)
    requires size >= 1
    ensures Safe(Blank(size), {}) && Exact(Blank(size), {})
    ensures NeverTwice(Blank(size), {}, ops)
  {
    NoDoubleAllocation(Blank(size), {}, ops);
  }

  // ----- which frees survive -----

  /** The bits an allocator call sees are exactly the live blocks, and a window that
      differs from its map block has the cursor on a clear bit. */
  ghost predicate Exact(s: MapState, live: set<nat>) {
    && WellFormed(s)
    && (forall n :: n in live ==> n < BITS * |s.store|)
    && (forall n :: 0 <= n < BITS * |s.store| ==> (Current(s, n) <==> n in live))
    && (forall k :: 0 <= k < BITS && s.window[k] ==> s.store[s.ptr][k])
    && (s.window != s.store[s.ptr] ==> !s.window[s.bit])
  }

  ghost predicate Clean(s: MapState)
    requires WellFormed(s)
  {
    s.window == s.store[s.ptr]
  }

  /** The search never drops a window that holds an unwritten free: it stops on that bit. */
  lemma FindKeepsBits(s: MapState, live: set<nat>)
    requires Exact(s, live) && Find(s).Some?
    ensures forall n :: 0 <= n < BITS * |s.store| ==> Current(Find(s).value, n) == Current(s, n)
  {
    if !s.window[s.bit] {
      assert FirstClear(s.window, s.bit) == s.bit;
    } else {
      assert Clean(s);
    }
  }

  /** An allocation from an exact state succeeds as long as any block is free, and keeps
      the state exact. */
  lemma GetIsExact(s: MapState, live: set<nat>)
    requires Exact(s, live)
    ensures Exact(Get(s).0, LiveAfter(s, live, Alloc))
    ensures Get(s).1.None? <==> forall n :: 0 <= n < BITS * |s.store| ==> n in live
    ensures Get(s).1.Some? ==> Get(s).1.value !in live
    ensures Get(s).1.Some? ==> Clean(Get(s).0)
  {
    var r := Find(s);
    if r.Some? {
      var t := r.value;
      var n := t.ptr * BITS + t.bit;
      Position(t.ptr, t.bit, |s.store|);
      FindKeepsBits(s, live);
      assert !Current(t, n);
      var u := Claim(t);
      forall m | 0 <= m < BITS * |s.store| ensures Current(u, m) <==> m in live + {n} {
        if m / BITS == t.ptr && m % BITS == t.bit {
          assert m == n;
        }
        assert Current(t, m) == Current(s, m);
      }
    } else {
      NothingFound(s);
      assert s.window[s.bit] && Clean(s);
      forall n | 0 <= n < BITS * |s.store| ensures n in live {
        assert Stored(s, n) && Current(s, n);
      }
    }
  }

  /** A free stays exact if and only if it does not throw away a window that differs from
      its map block, which happens when the freed block belongs to another map block. */
  lemma FreeIsExactIff(s: MapState, live: set<nat>, n: nat)
    requires Exact(s, live) && n < BITS * |s.store|
    ensures Exact(Free(s, n), live - {n}) <==> n / BITS == s.ptr || Clean(s)
    ensures Free(s, n).ptr == n / BITS
  {
    var u := Free(s, n);
    if n / BITS == s.ptr || Clean(s) {
      forall m | 0 <= m < BITS * |s.store| ensures Current(u, m) <==> m in live - {n} {
        if m != n {
          assert m / BITS != n / BITS || m % BITS != n % BITS;
          assert Current(u, m) == Current(s, m);
        }
      }
    } else {
      var k :| 0 <= k < BITS && s.window[k] != s.store[s.ptr][k];
      var m := s.ptr * BITS + k;
      Position(s.ptr, k, |s.store|);
      assert Current(u, m) && !Current(s, m);
    }
  }

  /** Run by run: allocation fails only when every block is live, hands out only free
      blocks, and the bits stay exact, provided no free leaves a dirty window behind. */
  ghost predicate RunsExactly(s: MapState, live: set<nat>, ops: seq<Op>)
    decreases |ops|
  {
    ops != [] && WellFormed(s) && InRange(s, ops[0]) ==>
      && (ops[0].Alloc? ==>
            if Get(s).1.None? then |live| == BITS * |s.store| else Get(s).1.value !in live)
      && Exact(Step(s, ops[0]), LiveAfter(s, live, ops[0]))
      && RunsExactly(Step(s, ops[0]), LiveAfter(s, live, ops[0]), ops[1..])
  }

  ghost predicate LosesNoFree(s: MapState, ops: seq<Op>)
    decreases |ops|
  {
    ops != [] && WellFormed(s) && InRange(s, ops[0]) ==>
      && (ops[0].Release? ==> ops[0].block / BITS == s.ptr || Clean(s))
      && LosesNoFree(Step(s, ops[0]), ops[1..])
  }

  lemma {:induction false} ExactRuns(s: MapState, live: set<nat>, ops: seq<Op>)
    requires Exact(s, live) && LosesNoFree(s, ops)
    ensures RunsExactly(s, live, ops)
    decreases |ops|
  {
    if ops != [] && InRange(s, ops[0]) {
      if ops[0].Alloc? {
        GetIsExact(s, live);
        if Get(s).1.None? {
          AllLive(s, live);
        }
      } else {
        FreeIsExactIff(s, live, ops[0].block);
      }
      ExactRuns(Step(s, ops[0]), LiveAfter(s, live, ops[0]), ops[1..]);
    }
  }

  /** On a map of one block no free can ever be lost. */
  lemma {:induction false} OneBlockLosesNoFree(s: MapState, ops: seq<Op>)
    requires WellFormed(s) && |s.store| == 1
    ensures LosesNoFree(s, ops)
    decreases |ops|
  {
    if ops != [] && InRange(s, ops[0]) {
      OneBlockLosesNoFree(Step(s, ops[0]), ops[1..]);
    }
  }

  /** Every run on a fresh one-block map is exact. */
  lemma OneBlockRunsExactly(ops: seq<Op>)
    ensures RunsExactly(Blank(1), {}, ops)
  {
    FreshMapIsSafe(1, ops);
    OneBlockLosesNoFree(Blank(1), ops);
    ExactRuns(Blank(1), {}, ops);
  }

  function AllSet(): Bits {
    seq(BITS, _ => true)
  }

  /** Every bit set, the cursor at the start: a full map whose last allocation failed. */
  function FullMap(size: nat): MapState {
    MapState(seq(size, _ => AllSet()), AllSet(), 0, 0)
  }

  /** The state after `n` allocations. */
  function Allocs(s: MapState, n: nat): (t: MapState)
    requires WellFormed(s)
    ensures WellFormed(t) && |t.store| == |s.store|
  {
    if n == 0 then s else Get(Allocs(s, n - 1)).0
  }

  /** An allocation on an exact map that is not full takes one block more. */
  lemma OneMoreLive(s: MapState, live: set<nat>)
    requires Exact(s, live) && Clean(s) && |live| < BITS * |s.store|
    ensures var live' := LiveAfter(s, live, Alloc);
            Exact(Get(s).0, live') && Clean(Get(s).0) && |live'| == |live| + 1
  {
    hide Get, Clean;
    GetIsExact(s, live);
    if Get(s).1.None? {
      AllLive(s, live);
    }
  }

  /** Allocations on a fresh map succeed until every block is live. */
  lemma {:induction false} Filling(size: nat, n: nat) returns (live: set<nat>)
    requires size >= 1 && n <= BITS * size
    ensures var t := Allocs(Blank(size), n);
            Exact(t, live) && Clean(t) && |live| == n && live <= Interval(0, BITS * size)
  {
    hide Get, Exact, Clean, Blank, LiveAfter;
    BlankIsClean(size);
    if n == 0 {
      return {};
    }
    live := Filling(size, n - 1);
    var t := Allocs(Blank(size), n - 1);
    OneMoreLive(t, live);
    live := LiveAfter(t, live, Alloc);
    ExactInRange(Allocs(Blank(size), n), live);
  }

  lemma BlankIsClean(size: nat)
    requires size >= 1
    ensures WellFormed(Blank(size)) && |Blank(size).store| == size && Exact(Blank(size), {}) && Clean(Blank(size))
  {
    FreshMapIsSafe(size, []);
  }

  lemma ExactInRange(s: MapState, live: set<nat>)
    requires Exact(s, live)
    ensures live <= Interval(0, BITS * |s.store|)
  {
  }

  /** One allocation more than a fresh map has blocks leaves the full map. */
  lemma FullMapIsReached(size: nat)
    requires size >= 1
    ensures Exact(FullMap(size), Interval(0, BITS * size))
    ensures Allocs(Blank(size), BITS * size + 1) == FullMap(size)
  {
    var t := Allocs(Blank(size), BITS * size);
    var live := Filling(size, BITS * size);
    SameSizeSame(live, Interval(0, BITS * size));
    CleanAndFull(t);
    assert Get(t).0 == FullMap(size);
    GetIsExact(t, live);
  }

  lemma CleanAndFull(t: MapState)
    requires Exact(t, Interval(0, BITS * |t.store|)) && Clean(t)
    ensures t.store == seq(|t.store|, _ => AllSet()) && Get(t) == (FullMap(|t.store|), None)
  {
    forall q | 0 <= q < |t.store| ensures t.store[q] == AllSet() {
      forall k | 0 <= k < BITS ensures t.store[q][k] {
        Position(q, k, |t.store|);
        assert Current(t, q * BITS + k);
      }
    }
    assert forall n :: 0 <= n < BITS * |t.store| ==> Stored(t, n);
    SearchIsComplete(t);
  }

  /** With two full map blocks, as a run from a fresh map leaves them: free block 0, then block
      512 of the other map block. The second free reloads the window, so block 512 comes back
      and block 0 never does. */
  lemma FreeCanBeLost()
    ensures var s := Allocs(Blank(2), BITS * 2 + 1);
            var u := Free(Free(s, 0), BITS);
            && s == FullMap(2) && Exact(s, Interval(0, BITS * 2))
            && Get(u).1 == Some(BITS)
            && Get(Get(u).0).1 == None
  {
    FullMapIsReached(2);
    var s := FullMap(2);
    var u := Free(Free(s, 0), BITS);
    FreeThenGet(Free(s, 0), BITS);
    var g := Get(u).0;
    assert g.window == AllSet() && g.store == s.store;
    SearchIsComplete(g);
    assert forall n :: 0 <= n < BITS * 2 ==> Stored(g, n);
  }

  // ----- conservation and round trip -----

  lemma AllLive(s: MapState, live: set<nat>)
    requires Exact(s, live) && forall n :: 0 <= n < BITS * |s.store| ==> n in live
    ensures |live| == BITS * |s.store|
  {
    assert live == Interval(0, BITS * |s.store|);
  }

  /** Clear usable bits and live blocks always add up to the size of the map. */
  lemma Conservation(s: MapState, live: set<nat>)
    requires Exact(s, live)
    ensures |set n | 0 <= n < BITS * |s.store| && !Current(s, n)| + |live| == BITS * |s.store|
  {
    var clear := set n | 0 <= n < BITS * |s.store| && !Current(s, n);
    assert clear + live == Interval(0, BITS * |s.store|);
    assert clear !! live;
  }

  /** Freeing a block and allocating again returns that same block, from any state. */
  lemma FreeThenGet(s: MapState, n: nat)
    requires WellFormed(s) && n < BITS * |s.store|
    ensures Get(Free(s, n)).1 == Some(n)
    ensures forall m :: 0 <= m < BITS * |s.store| && m != n && m / BITS == s.ptr == n / BITS ==>
              Current(Get(Free(s, n)).0, m) == Current(s, m)
  {
    var u := Free(s, n);
    assert FirstClear(u.window, u.bit) == u.bit;
    assert n == (n / BITS) * BITS + n % BITS;
  }

  /** The search gives up only when every usable bit of the stored map is set; it succeeds
      whenever the window or the store still shows a clear bit ahead of it. */
  lemma SearchIsComplete(s: MapState)
    requires WellFormed(s)
    ensures Get(s).1.None? <==>
              && (forall n :: 0 <= n < BITS * |s.store| ==> Stored(s, n))
              && (forall k :: s.bit <= k < BITS ==> s.window[k])
  {
    NothingFound(s);
  }

  /** An allocation that failed fails again: only a free makes room. */
  lemma StaysExhausted(s: MapState)
    requires WellFormed(s) && Get(s).1.None?
    ensures Get(Get(s).0).1.None?
  {
    SearchIsComplete(s);
    var t := Get(s).0;
    forall k | 0 <= k < BITS ensures t.window[k] {
      Position(0, k, |s.store|);
      assert Stored(s, 0 * BITS + k);
    }
    assert forall n :: 0 <= n < BITS * |s.store| ==> Stored(t, n) == Stored(s, n);
    SearchIsComplete(t);
  }

  // ----- how many allocations will succeed -----

  /** The window shows no block taken that the store shows free. */
  predicate Covered(s: MapState) {
    WellFormed(s) && forall k :: 0 <= k < BITS && s.window[k] ==> s.store[s.ptr][k]
  }

  ghost function ClearBits(s: MapState): set<nat>
    requires WellFormed(s)
  {
    set n | 0 <= n < BITS * |s.store| && !Current(s, n)
  }

  /** Every allocation takes a bit that was clear, and shows none clear that was set. */
  lemma GetTakesOne(s: MapState)
    requires Covered(s) && Get(s).1.Some?
    ensures Covered(Get(s).0) && ClearBits(Get(s).0) < ClearBits(s)
  {
    var t := Find(s).value;
    var n := t.ptr * BITS + t.bit;
    Position(t.ptr, t.bit, |s.store|);
    var u := Claim(t);
    SetBeforeFirstClear(s.window, s.bit);
    forall m | 0 <= m < BITS * |s.store| && !Current(u, m) ensures !Current(s, m) {
      assert m / BITS != t.ptr || m % BITS != t.bit;
    }
    assert n in ClearBits(s) && n !in ClearBits(u);
  }

  /** The number of allocations that will succeed, one after the other, without a free. */
  function RoomOf(s: MapState): nat
    requires Covered(s)
    decreases |ClearBits(s)|
  {
    if Get(s).1.None? then 0
    else
      GetTakesOne(s);
      ProperSubsetSmaller(ClearBits(Get(s).0), ClearBits(s));
      1 + RoomOf(Get(s).0)
  }

  /** If the bits say exactly what is live, the room is what is not. */
  lemma {:induction false} RoomIsRest(s: MapState, live: set<nat>)
    requires Exact(s, live)
    ensures |live| <= BITS * |s.store| && RoomOf(s) == BITS * |s.store| - |live|
    decreases |ClearBits(s)|
  {
    hide Get;
    GetIsExact(s, live);
    if Get(s).1.None? {
      AllLive(s, live);
    } else {
      GetTakesOne(s);
      ProperSubsetSmaller(ClearBits(Get(s).0), ClearBits(s));
      GetKeepsSize(s);
      RoomIsRest(Get(s).0, LiveAfter(s, live, Alloc));
    }
  }

  lemma GetKeepsSize(s: MapState)
    requires WellFormed(s)
    ensures |Get(s).0.store| == |s.store|
  {
  }

  /** A failed allocation finds no room and leaves none. */
  lemma NoRoomLeft(s: MapState)
    requires Covered(s) && Get(s).1.None?
    ensures Covered(Get(s).0) && RoomOf(s) == RoomOf(Get(s).0) == 0
  {
    StaysExhausted(s);
  }

  /** A fresh map of any size comes to have room for one block more. */
  lemma OneCanBeLeft(size: nat)
    requires size >= 1
    ensures var s := Allocs(Blank(size), BITS * size - 1); Covered(s) && RoomOf(s) == 1
  {
    var live := Filling(size, BITS * size - 1);
    RoomIsRest(Allocs(Blank(size), BITS * size - 1), live);
  }

  // ----- the search as a scan -----

  /** After `pass` wraps, the scan is at bit `b` of map block `q`, whose bits are `w`. */
  datatype Scan = Scan(pass: nat, q: nat, w: Bits, b: nat)

  /** What the scan has passed over is set. */
  ghost predicate Scanned(s: MapState, c: Scan) {
    && WellFormed(s) && c.q < |s.store| && c.b < BITS && c.pass <= 2
    && if c.pass == 0 && c.q == s.ptr then
         c.w == s.window && s.bit <= c.b <= FirstClear(s.window, s.bit)
       else
         && c.w == s.store[c.q] && c.b <= FirstClear(c.w, 0)
         && FirstClear(s.window, s.bit) == BITS
         && (c.pass == 0 ==> s.ptr < c.q <= FirstOpen(s.store, s.ptr + 1))
         && (c.pass == 1 ==> FirstOpen(s.store, s.ptr + 1) == |s.store| && c.q <= FirstOpen(s.store, 0))
         && (c.pass == 2 ==> FirstOpen(s.store, 0) == |s.store| && c.q == c.b == 0)
  }

  /** The next bit, the next map block, or the first one again. */
  function Next(s: MapState, c: Scan): Scan
    requires c.q < |s.store|
  {
    if c.b + 1 < BITS then c.(b := c.b + 1)
    else if c.q + 1 < |s.store| then Scan(c.pass, c.q + 1, s.store[c.q + 1], 0)
    else Scan(c.pass + 1, 0, s.store[0], 0)
  }

  lemma ScanFound(s: MapState, c: Scan)
    requires Scanned(s, c) && c.pass < 2 && !c.w[c.b]
    ensures Find(s) == Some(MapState(s.store, c.w, c.q, c.b))
  {
    if c.pass == 0 && c.q == s.ptr {
      SetBeforeFirstClear(s.window, s.bit);
    } else {
      SetBeforeFirstClear(c.w, 0);
      FullBeforeFirstOpen(s.store, s.ptr + 1);
      FullBeforeFirstOpen(s.store, 0);
    }
  }

  lemma ScanOn(s: MapState, c: Scan)
    requires Scanned(s, c) && c.pass < 2 && c.w[c.b]
    ensures Scanned(s, Next(s, c))
    ensures var d := Next(s, c);
            d.pass > c.pass || (d.pass == c.pass && (d.q > c.q || (d.q == c.q && d.b > c.b)))
  {
  }

  lemma ScanDone(s: MapState, c: Scan)
    requires Scanned(s, c) && c.pass == 2
    ensures Get(s) == (MapState(s.store, c.w, c.q, c.b), None)
  {
  }
}
