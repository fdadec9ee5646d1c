// The block chain of a file: maps linked through their first word, whose slots name the
// data blocks in file order, and the bytes those blocks hold.
module FileChain {
  import opened Counting
  import opened Blocks
  import opened BlockMaps

  /** The map blocks of a file in chain order, and its data blocks in file order. */
  datatype Rep = Rep(maps: seq<nat>, blks: seq<nat>)

  function BlocksOf(r: Rep): seq<nat> {
    r.maps + r.blks
  }

  /** Map `j` of the chain links to map `j + 1` and fills its slots in file order. */
  ghost predicate MapHolds(m: BlockMap, r: Rep, j: nat) {
    && m.next == (if j + 1 < |r.maps| then r.maps[j + 1] else INODE_NULL)
    && forall s :: 0 <= s < BMAP_BLOCKS ==>
         m.blocks[s] == if BMAP_BLOCKS * j + s < |r.blks| then r.blks[BMAP_BLOCKS * j + s] else INODE_NULL
  }

  ghost predicate WellShaped(r: Rep) {
    && |r.maps| >= 1
    && BMAP_BLOCKS * (|r.maps| - 1) <= |r.blks| <= BMAP_BLOCKS * |r.maps|
    && NoDup(r.maps) && NoDup(r.blks)
    && (forall b :: b in r.maps ==> b != INODE_NULL && b !in r.blks)
    && (forall b :: b in r.blks ==> b != INODE_NULL)
  }

  /** The disk holds the chain `r`, starting at `next`. */
  ghost predicate Chain(d: Disk, next: nat, r: Rep) {
    && WellShaped(r)
    && r.maps[0] == next
    && forall j {:trigger MapAt(d, r.maps[j])} :: 0 <= j < |r.maps| ==> MapHolds(MapAt(d, r.maps[j]), r, j)
  }

  ghost predicate BlockHolds(b: Block, c: seq<bv8>, base: nat) {
    forall k :: 0 <= k < BLOCK_SIZE && base + k < |c| ==> b[k] == c[base + k]
  }

  /** The data blocks hold the bytes `c`, as far as they reach. */
  ghost predicate HoldsBytes(d: Disk, blks: seq<nat>, c: seq<bv8>) {
    forall j {:trigger blks[j]} :: 0 <= j < |blks| ==> BlockHolds(BlockAt(d, blks[j]), c, BLOCK_SIZE * j)
  }

  function ByteAt(d: Disk, blks: seq<nat>, o: nat): bv8
    requires o < BLOCK_SIZE * |blks|
  {
    BlockAt(d, blks[o / BLOCK_SIZE])[o % BLOCK_SIZE]
  }

  function FileBytes(d: Disk, blks: seq<nat>, n: nat): (c: seq<bv8>)
    requires n <= BLOCK_SIZE * |blks|
    ensures |c| == n
  {
    seq(n, o requires 0 <= o < n => ByteAt(d, blks, o))
  }

  ghost predicate SameOn(d: Disk, e: Disk, bs: seq<nat>) {
    forall b :: b in bs ==> BlockAt(d, b) == BlockAt(e, b)
  }

  // ----- one map -----

  lemma MapAtWritten(d: Disk, b: nat, m: BlockMap, c: nat)
    ensures MapAt(d[b := Encode(m)], c) == if c == b then m else MapAt(d, c)
  {
    DecodeEncode(m);
  }

  lemma MapAtZeroed(d: Disk, b: nat, c: nat)
    ensures MapAt(d[b := Zeros(BLOCK_SIZE)], c) == if c == b then EMPTY_MAP else MapAt(d, c)
  {
    ZerosDecode();
  }

  // ----- reading the chain -----

  lemma ChainEnds(d: Disk, next: nat, r: Rep)
    requires Chain(d, next, r)
    ensures |r.maps| > 0 && r.maps[0] == next && next in r.maps && r.maps[|r.maps| - 1] in r.maps && next != INODE_NULL
  {
  }

  lemma MapFrame(d: Disk, e: Disk, b: nat)
    requires BlockAt(d, b) == BlockAt(e, b)
    ensures MapAt(d, b) == MapAt(e, b)
  {
  }

  lemma SlotOf(d: Disk, next: nat, r: Rep, q: nat)
    requires Chain(d, next, r) && q < |r.blks|
    ensures q / BMAP_BLOCKS < |r.maps|
    ensures MapAt(d, r.maps[q / BMAP_BLOCKS]).blocks[q % BMAP_BLOCKS] == r.blks[q]
  {
    assert MapHolds(MapAt(d, r.maps[q / BMAP_BLOCKS]), r, q / BMAP_BLOCKS);
  }

  lemma LinkOf(d: Disk, next: nat, r: Rep, j: nat)
    requires Chain(d, next, r) && j < |r.maps|
    ensures MapAt(d, r.maps[j]).next == if j + 1 < |r.maps| then r.maps[j + 1] else INODE_NULL
    ensures MapAt(d, r.maps[j]).next == INODE_NULL <==> j + 1 == |r.maps|
  {
    assert j + 1 < |r.maps| ==> r.maps[j + 1] in r.maps;
    assert MapHolds(MapAt(d, r.maps[j]), r, j);
  }

  lemma EmptySlot(d: Disk, next: nat, r: Rep, j: nat, s: nat)
    requires Chain(d, next, r) && j < |r.maps| && s < BMAP_BLOCKS && BMAP_BLOCKS * j + s >= |r.blks|
    ensures MapAt(d, r.maps[j]).blocks[s] == INODE_NULL
  {
    assert MapHolds(MapAt(d, r.maps[j]), r, j);
  }

  /** Behind the last slot of a map with no successor the chain is full. */
  lemma LastMapIsFull(r: Rep, q: nat)
    requires WellShaped(r) && q < |r.blks| && q % BMAP_BLOCKS == BMAP_BLOCKS - 1
    requires q / BMAP_BLOCKS + 1 == |r.maps|
    ensures |r.blks| == BMAP_BLOCKS * |r.maps|
  {
  }

  /** Where the block behind the last data block goes, if a map has room for it. */
  lemma NextSlot(r: Rep, k: nat)
    requires WellShaped(r) && k == |r.blks| && k / BMAP_BLOCKS < |r.maps|
    ensures k / BMAP_BLOCKS == |r.maps| - 1 && k < BMAP_BLOCKS * |r.maps|
  {
  }

  lemma StepPosition(q: nat)
    ensures (q + 1) % BMAP_BLOCKS == (q % BMAP_BLOCKS + 1) % BMAP_BLOCKS
    ensures (q + 1) / BMAP_BLOCKS == q / BMAP_BLOCKS + if q % BMAP_BLOCKS == BMAP_BLOCKS - 1 then 1 else 0
  {
  }

  lemma Offset(o: nat, n: nat)
    requires o < BLOCK_SIZE * n
    ensures o / BLOCK_SIZE < n && o % BLOCK_SIZE < BLOCK_SIZE && o == BLOCK_SIZE * (o / BLOCK_SIZE) + o % BLOCK_SIZE
  {
  }

  lemma OffsetOf(j: nat, k: nat)
    requires k < BLOCK_SIZE
    ensures (BLOCK_SIZE * j + k) / BLOCK_SIZE == j && (BLOCK_SIZE * j + k) % BLOCK_SIZE == k
  {
  }

  /** What the data blocks hold is determined: stored bytes are the bytes read back. */
  lemma HeldBytesAreFileBytes(d: Disk, blks: seq<nat>, c: seq<bv8>)
    requires |c| <= BLOCK_SIZE * |blks|
    ensures HoldsBytes(d, blks, c) <==> c == FileBytes(d, blks, |c|)
  {
    hide BlockAt;
    var f := FileBytes(d, blks, |c|);
    if HoldsBytes(d, blks, c) {
      forall o | 0 <= o < |c| ensures c[o] == f[o] {
        Offset(o, |blks|);
        HeldByte(d, blks, c, o / BLOCK_SIZE, o % BLOCK_SIZE);
      }
    }
    if c == f {
      forall j | 0 <= j < |blks| ensures BlockHolds(BlockAt(d, blks[j]), c, BLOCK_SIZE * j) {
        forall k | 0 <= k < BLOCK_SIZE && BLOCK_SIZE * j + k < |c|
          ensures BlockAt(d, blks[j])[k] == c[BLOCK_SIZE * j + k]
        {
          OffsetOf(j, k);
          assert c[BLOCK_SIZE * j + k] == ByteAt(d, blks, BLOCK_SIZE * j + k);
        }
      }
    }
  }

  lemma HeldByte(d: Disk, blks: seq<nat>, c: seq<bv8>, j: nat, k: nat)
    requires HoldsBytes(d, blks, c) && j < |blks| && k < BLOCK_SIZE && BLOCK_SIZE * j + k < |c|
    ensures BlockAt(d, blks[j])[k] == c[BLOCK_SIZE * j + k]
  {
    hide BlockAt;
    assert BlockHolds(BlockAt(d, blks[j]), c, BLOCK_SIZE * j);
  }

  lemma SamePrefix(d: Disk, blks: seq<nat>, c: seq<bv8>, e: seq<bv8>)
    requires HoldsBytes(d, blks, c) && HoldsBytes(d, blks, e) && |c| <= |e| <= BLOCK_SIZE * |blks|
    ensures c <= e
  {
    HeldBytesAreFileBytes(d, blks, c);
    HeldBytesAreFileBytes(d, blks, e);
    forall o | 0 <= o < |c| ensures c[o] == e[o] {
      assert c[o] == ByteAt(d, blks, o) && e[o] == ByteAt(d, blks, o);
    }
  }

  /** The bytes a file shows when its size grows to `n` over blocks it has. */
  lemma ExtendBytes(d: Disk, blks: seq<nat>, c: seq<bv8>, n: nat) returns (e: seq<bv8>)
    requires HoldsBytes(d, blks, c) && |c| <= n <= BLOCK_SIZE * |blks|
    ensures |e| == n && c <= e && HoldsBytes(d, blks, e)
  {
    e := FileBytes(d, blks, n);
    HeldBytesAreFileBytes(d, blks, e);
    SamePrefix(d, blks, c, e);
  }

  // ----- changes that leave a chain alone -----

  lemma ChainFrame(d: Disk, e: Disk, next: nat, r: Rep)
    requires Chain(d, next, r) && SameOn(d, e, r.maps)
    ensures Chain(e, next, r)
  {
    forall j | 0 <= j < |r.maps| ensures MapHolds(MapAt(e, r.maps[j]), r, j) {
      assert r.maps[j] in r.maps;
      assert MapHolds(MapAt(d, r.maps[j]), r, j);
    }
  }

  lemma BytesFrame(d: Disk, e: Disk, blks: seq<nat>, c: seq<bv8>)
    requires HoldsBytes(d, blks, c) && SameOn(d, e, blks)
    ensures HoldsBytes(e, blks, c)
  {
    forall j | 0 <= j < |blks| ensures BlockHolds(BlockAt(e, blks[j]), c, BLOCK_SIZE * j) {
      assert blks[j] in blks;
    }
  }

  lemma BytesPrefix(d: Disk, blks: seq<nat>, c: seq<bv8>, n: nat)
    requires HoldsBytes(d, blks, c) && n <= |c|
    ensures HoldsBytes(d, blks, c[..n])
  {
    forall j | 0 <= j < |blks| ensures BlockHolds(BlockAt(d, blks[j]), c[..n], BLOCK_SIZE * j) {
      assert BlockHolds(BlockAt(d, blks[j]), c, BLOCK_SIZE * j);
    }
  }

  lemma BytesGrow(d: Disk, blks: seq<nat>, more: seq<nat>, c: seq<bv8>)
    requires HoldsBytes(d, blks, c) && |c| <= BLOCK_SIZE * |blks| && blks <= more
    ensures HoldsBytes(d, more, c)
  {
    forall j | 0 <= j < |more| ensures BlockHolds(BlockAt(d, more[j]), c, BLOCK_SIZE * j) {
      if j < |blks| {
        assert more[j] == blks[j];
      }
    }
  }

  // ----- growing a chain -----

  /** Link an empty map, a block used nowhere in the chain, behind a full last map. */
  lemma AppendMap(d: Disk, next: nat, r: Rep, b: Word)
    requires Chain(d, next, r) && |r.blks| == BMAP_BLOCKS * |r.maps|
    requires b != INODE_NULL && b !in r.maps && b !in r.blks
    ensures var last := r.maps[|r.maps| - 1];
            var e := d[b := Zeros(BLOCK_SIZE)][last := Encode(MapAt(d, last).(next := b))];
            Chain(e, next, Rep(r.maps + [b], r.blks))
  {
    hide MapAt, Encode;
    var n := |r.maps|;
    var last := r.maps[n - 1];
    var m := MapAt(d, last).(next := b);
    var e := d[b := Zeros(BLOCK_SIZE)][last := Encode(m)];
    var u := Rep(r.maps + [b], r.blks);
    assert last in r.maps;
    forall j | 0 <= j < n + 1 ensures MapHolds(MapAt(e, u.maps[j]), u, j) {
      MapAtWritten(d[b := Zeros(BLOCK_SIZE)], last, m, u.maps[j]);
      MapAtZeroed(d, b, u.maps[j]);
      if j < n {
        assert u.maps[j] == r.maps[j] && r.maps[j] in r.maps;
        assert MapHolds(MapAt(d, r.maps[j]), r, j);
      }
    }
  }

  /** Put a block used nowhere in the chain into its first empty slot. */
  lemma AppendBlock(d: Disk, next: nat, r: Rep, b: Word, zero: Block)
    requires Chain(d, next, r) && |r.blks| < BMAP_BLOCKS * |r.maps|
    requires b != INODE_NULL && b !in r.maps && b !in r.blks
    ensures var last := r.maps[|r.maps| - 1];
            var m := MapAt(d, last);
            var e := d[b := zero][last := Encode(m.(blocks := m.blocks[|r.blks| % BMAP_BLOCKS := b]))];
            Chain(e, next, Rep(r.maps, r.blks + [b]))
  {
    hide MapAt, Encode;
    var n, k := |r.maps|, |r.blks|;
    var last := r.maps[n - 1];
    var m0 := MapAt(d, last);
    var m := m0.(blocks := m0.blocks[k % BMAP_BLOCKS := b]);
    var e := d[b := zero][last := Encode(m)];
    var u := Rep(r.maps, r.blks + [b]);
    assert last in r.maps && k == BMAP_BLOCKS * (n - 1) + k % BMAP_BLOCKS;
    forall j | 0 <= j < n ensures MapHolds(MapAt(e, u.maps[j]), u, j) {
      assert r.maps[j] in r.maps && MapHolds(MapAt(d, r.maps[j]), r, j);
      MapAtWritten(d[b := zero], last, m, r.maps[j]);
      MapFrame(d, d[b := zero], r.maps[j]);
    }
  }

  /** The chain of a file that gets its first map. */
  lemma ZeroChain(d: Disk, b: nat)
    requires b != INODE_NULL
    ensures Chain(d[b := Zeros(BLOCK_SIZE)], b, Rep([b], [])) && MapAt(d[b := Zeros(BLOCK_SIZE)], b) == EMPTY_MAP
  {
    ZerosDecode();
  }

  /** The chain of a file that gets its first map and its first data block. */
  lemma FirstChain(d: Disk, b: nat, c: Word, m: BlockMap)
    requires m == EMPTY_MAP.(blocks := EMPTY_MAP.blocks[0 := c]) && b != INODE_NULL && c != INODE_NULL && b != c
    ensures Chain(d[b := Encode(m)], b, Rep([b], [c])) && MapAt(d[b := Encode(m)], b) == m
  {
    DecodeEncode(m);
  }

  // ----- writing bytes -----

  /** Overwrite one byte, or add one at the end. */
  function Put(c: seq<bv8>, o: nat, x: bv8): seq<bv8>
    requires o <= |c|
  {
    if o < |c| then c[o := x] else c + [x]
  }

  /** Replace the bytes from `p` on by `d`, extending the end if `d` reaches past it. */
  function Splice(c: seq<bv8>, p: nat, d: seq<bv8>): seq<bv8>
    requires p <= |c|
  {
    c[..p] + d + if p + |d| < |c| then c[p + |d|..] else []
  }

  lemma SplicePut(c: seq<bv8>, p: nat, d: seq<bv8>, i: nat)
    requires p <= |c| && i < |d|
    ensures |Splice(c, p, d[..i])| >= p + i
    ensures Splice(c, p, d[..i + 1]) == Put(Splice(c, p, d[..i]), p + i, d[i])
  {
  }

  lemma SpliceSize(c: seq<bv8>, p: nat, d: seq<bv8>)
    requires p <= |c|
    ensures |Splice(c, p, d)| == if |c| < p + |d| then p + |d| else |c|
    ensures d == [] ==> Splice(c, p, d) == c && c[..|c|] == c
  {
  }

  lemma SpliceAtEnd(c: seq<bv8>, d: seq<bv8>)
    ensures Splice(c, |c|, d) == c + d
    ensures Splice(c, |c|, d)[..|c|] == c
  {
  }

  lemma BytesPut(d: Disk, blks: seq<nat>, q: nat, buf: Block, c: seq<bv8>, k: nat, x: bv8)
    requires q < |blks| && NoDup(blks) && k < BLOCK_SIZE && BLOCK_SIZE * q + k <= |c|
    requires HoldsBytes(d[blks[q] := buf], blks, c)
    ensures HoldsBytes(d[blks[q] := buf[k := x]], blks, Put(c, BLOCK_SIZE * q + k, x))
  {
    var e, f := d[blks[q] := buf], d[blks[q] := buf[k := x]];
    var u := Put(c, BLOCK_SIZE * q + k, x);
    forall j | 0 <= j < |blks| ensures BlockHolds(BlockAt(f, blks[j]), u, BLOCK_SIZE * j) {
      assert BlockHolds(BlockAt(e, blks[j]), c, BLOCK_SIZE * j);
      assert j != q ==> blks[j] != blks[q];
      forall i | 0 <= i < BLOCK_SIZE && BLOCK_SIZE * j + i < |u|
        ensures BlockAt(f, blks[j])[i] == u[BLOCK_SIZE * j + i]
      {
      }
    }
  }

  /** A byte past the end of `c` does not matter. */
  lemma BytesPast(d: Disk, blks: seq<nat>, q: nat, buf: Block, c: seq<bv8>, k: nat, x: bv8)
    requires q < |blks| && NoDup(blks) && k < BLOCK_SIZE && BLOCK_SIZE * q + k >= |c|
    requires HoldsBytes(d[blks[q] := buf], blks, c)
    ensures HoldsBytes(d[blks[q] := buf[k := x]], blks, c)
  {
    var e, f := d[blks[q] := buf], d[blks[q] := buf[k := x]];
    forall j | 0 <= j < |blks| ensures BlockHolds(BlockAt(f, blks[j]), c, BLOCK_SIZE * j) {
      assert BlockHolds(BlockAt(e, blks[j]), c, BLOCK_SIZE * j);
      assert j != q ==> blks[j] != blks[q];
    }
  }

  // ----- how many blocks a file has -----

  /** The data blocks among the `s` blocks of a file, which has a map for every 127 of them. */
  function Datas(s: nat): nat {
    s - (s + BMAP_BLOCKS) / (BMAP_BLOCKS + 1)
  }

  /** The blocks of a file that has just got its `k`th data block. */
  function BlocksFor(k: nat): nat {
    k + (k + BMAP_BLOCKS - 1) / BMAP_BLOCKS
  }

  function Max(a: nat, b: nat): nat {
    if a < b then b else a
  }

  lemma RepCounts(r: Rep)
    requires r == Rep([], []) || WellShaped(r)
    ensures |r.blks| == Datas(|BlocksOf(r)|)
  {
  }

  lemma ShapeOf(d: Disk, next: nat, r: Rep)
    requires Chain(d, next, r)
    ensures WellShaped(r)
  {
  }

  /** A file has `k` data blocks as soon as it has as many blocks as they take. */
  lemma DatasReach(s: nat, k: nat)
    ensures Datas(s) >= k <==> s >= BlocksFor(k)
    ensures Datas(BlocksFor(k)) == k
  {
  }

  lemma MaxStep(s: nat, j: nat, k: nat)
    requires j <= k
    ensures Max(Max(s, BlocksFor(j)), BlocksFor(k)) == Max(s, BlocksFor(k))
  {
  }

  lemma MaxFirst(k: nat)
    requires k >= 1
    ensures Max(2, BlocksFor(k)) == Max(0, BlocksFor(k)) >= 2
  {
  }

  /** The bytes that the data blocks among `s` blocks of a file hold. */
  function Capacity(s: nat): nat {
    BLOCK_SIZE * Datas(s)
  }

  // ----- finding a position -----

  const MAP_BYTES := BMAP_BLOCKS * BLOCK_SIZE

  /** How many maps file_read_write scans to reach `pos`. */
  function ScanCount(pos: nat): nat {
    var block := pos / BLOCK_SIZE + (if pos % BLOCK_SIZE != 0 then 1 else 0) + (if pos == 0 then 1 else 0);
    block / BMAP_BLOCKS + if block % BMAP_BLOCKS != 0 then 1 else 0
  }

  /** The scan ends on the map of `pos` exactly when `pos` is not a positive multiple of
      65024; on those it stops one map short. */
  lemma ScanCountExact(pos: nat)
    ensures ScanCount(pos) == pos / MAP_BYTES + 1 <==> !(pos > 0 && pos % MAP_BYTES == 0)
    ensures pos > 0 && pos % MAP_BYTES == 0 ==> ScanCount(pos) == pos / MAP_BYTES
    ensures pos / MAP_BYTES == pos / BLOCK_SIZE / BMAP_BLOCKS
  {
  }

  /** The chain is long enough for the scan to any byte its blocks hold. */
  lemma ScanFits(r: Rep, pos: nat)
    requires WellShaped(r) && pos < BLOCK_SIZE * |r.blks|
    ensures 1 <= ScanCount(pos) <= |r.maps|
  {
    ScanCountExact(pos);
  }

  lemma PositionFits(n: nat, blocks: nat)
    ensures n / BLOCK_SIZE < blocks <==> n < BLOCK_SIZE * blocks
  {
  }
}
