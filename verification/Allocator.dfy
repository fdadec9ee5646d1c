// The allocators of inode.c. inode_get_data_block and inode_get_inode_block are the same
// code over different fields of the master record, and so are the two free functions:
// one class stands for both, and a file system has one object for each region.
module Allocation {
  import opened Wrappers
  import opened Blocks
  import opened Bitmap
  import opened AllocSpec
  import opened Volumes

  const INODE_NR_PASS := 2

  function FirstBits(d: Block, n: nat): (r: seq<bool>)
    requires n <= BITS
    ensures |r| == n
  {
    if n == 0 then [] else FirstBits(d, n - 1) + [BitAt(d, n - 1)]
  }

  /** The bits of a map block that the allocators use. */
  function BitsOf(d: Block): Bits {
    FirstBits(d, BITS)
  }

  lemma {:induction false} FirstBitsAt(d: Block, n: nat)
    requires n <= BITS
    ensures forall i :: 0 <= i < n ==> FirstBits(d, n)[i] == BitAt(d, i)
  {
    if n > 0 {
      FirstBitsAt(d, n - 1);
    }
  }

  /** The used bits of the `size` map blocks from `start`. */
  function MapBits(blocks: Disk, start: nat, size: nat): (m: seq<Bits>)
    ensures |m| == size
  {
    if size == 0 then [] else MapBits(blocks, start, size - 1) + [BitsOf(BlockAt(blocks, start + size - 1))]
  }

  lemma {:induction false} MapBitsAt(blocks: Disk, start: nat, size: nat, q: nat)
    requires q < size
    ensures MapBits(blocks, start, size)[q] == BitsOf(BlockAt(blocks, start + q))
  {
    if q < size - 1 {
      MapBitsAt(blocks, start, size - 1, q);
    }
  }

  /** Writes outside the map leave its bits alone. */
  lemma {:induction false} MapBitsFrame(before: Disk, after: Disk, start: nat, size: nat)
    requires forall b :: start <= b < start + size ==> BlockAt(before, b) == BlockAt(after, b)
    ensures MapBits(before, start, size) == MapBits(after, start, size)
  {
    if size > 0 {
      MapBitsFrame(before, after, start, size - 1);
    }
  }

  lemma {:induction false} MapBitsAfterWrite(blocks: Disk, start: nat, size: nat, q: nat, d: Block)
    requires q < size
    ensures MapBits(blocks[start + q := d], start, size) == MapBits(blocks, start, size)[q := BitsOf(d)]
  {
    if q < size - 1 {
      MapBitsAfterWrite(blocks, start, size - 1, q, d);
    } else {
      MapBitsFrame(blocks, blocks[start + q := d], start, size - 1);
    }
  }

  /** What an allocation does to the room and to an exact map. */
  lemma GetCounts(s: MapState, live: set<nat>)
    requires Safe(s, live)
    ensures Covered(s) && Covered(Get(s).0) && (Get(s).1.None? <==> RoomOf(s) == 0)
    ensures RoomOf(Get(s).0) == if Get(s).1.None? then 0 else RoomOf(s) - 1
    ensures Exact(s, live) ==> Exact(Get(s).0, LiveAfter(s, live, Alloc))
  {
    hide Exact, Get;
    if Exact(s, live) {
      GetIsExact(s, live);
    }
    if Get(s).1.None? {
      NoRoomLeft(s);
    } else {
      GetTakesOne(s);
    }
  }

  class Allocator {
    const vol: Volume
    const mapStart: nat
    const mapEnd: nat
    const regionStart: nat
    const initFs: bool
    const window: array<bv8>
    var ptr: nat             // the map block in the window; 0 before anything is loaded
    var bit: nat
    var savedPtr: nat        // the cursor in the master block on disk
    var savedBit: nat
    ghost var state: MapState // map, window and cursor; block 0 of the map before the first load
    ghost var live: set<nat>  // blocks handed out and not freed, counted from regionStart

    /** The state inode_create_fs leaves: zeroed map blocks, nothing loaded, nothing live. */
    constructor (vol: Volume, mapStart: nat, mapEnd: nat, regionStart: nat)
      requires 0 < mapStart < mapEnd
      requires forall b :: mapStart <= b < mapEnd ==> BlockAt(vol.blocks, b) == Zeros(BLOCK_SIZE)
      ensures this.vol == vol && this.mapStart == mapStart && this.mapEnd == mapEnd
      ensures this.regionStart == regionStart && initFs && fresh(window)
      ensures Valid() && live == {} && state == Blank(mapEnd - mapStart) && Exact(state, {})
    {
      this.vol, this.mapStart, this.mapEnd, this.regionStart := vol, mapStart, mapEnd, regionStart;
      initFs, state := true, Blank(mapEnd - mapStart);
      ptr, bit, savedPtr, savedBit, live := 0, 0, 0, 0, {};
      window := new bv8[BLOCK_SIZE](_ => 0);
      new;
      ZeroMap(vol.blocks, mapStart, Size());
      FreshMapIsSafe(Size(), []);
    }

    function Size(): nat
      requires mapStart < mapEnd
    {
      mapEnd - mapStart
    }

    ghost predicate Valid()
      reads this, vol`blocks, window
    {
      ValidOn(vol.blocks)
    }

    /** The map on disk `d`, the window and the cursor are those of the state, which is safe. */
    ghost predicate ValidOn(d: Disk)
      reads this, window
    {
      && 0 < mapStart < mapEnd && window.Length == BLOCK_SIZE
      && Safe(state, live)
      && state.store == MapBits(d, mapStart, Size())
      && if ptr == 0 then
           state.window == state.store[0] && state.ptr == 0 && state.bit == 0
         else
           && ptr == mapStart + state.ptr
           && bit == state.bit
           && BitsOf(window[..]) == state.window
    }

    predicate InRegion(b: nat)
      requires mapStart < mapEnd
    {
      regionStart <= b < regionStart + BITS * Size()
    }

    ghost predicate IsLive(b: nat)
      reads this`live
    {
      b >= regionStart && b - regionStart in live
    }

    /** How many allocations will succeed before one fails; none if the map is not initialised. */
    ghost function Room(): nat
      reads this
    {
      if (ptr == 0 && !initFs) || !Covered(state) then 0 else RoomOf(state)
    }

    ghost predicate Exhausted()
      reads this
    {
      Room() == 0
    }

    /** The bits say exactly which blocks are live. */
    ghost predicate IsExact()
      reads this
    {
      Exact(state, live)
    }

    /** On an exact map the room is what is not live. */
    lemma RoomIsRest()
      requires Valid() && IsExact() && (ptr != 0 || initFs)
      ensures |live| <= BITS * Size() && Room() == BITS * Size() - |live|
    {
      AllocSpec.RoomIsRest(state, live);
    }

    /** The room, from the map on disk and the window. */
    method RoomLeft() returns (n: nat)
      requires Valid()
      ensures n == Room()
    {
      hide MapBits, BitsOf;
      if ptr == 0 && !initFs {
        return 0;
      }
      var store := MapBits(vol.blocks, mapStart, Size());
      var s := if ptr == 0 then MapState(store, store[0], 0, 0)
               else MapState(store, BitsOf(window[..]), ptr - mapStart, bit);
      n := RoomOf(s);
    }

    /** Read a map block into the window. */
    method Load(p: nat)
      requires mapStart <= p < mapEnd && window.Length == BLOCK_SIZE
      requires state.store == MapBits(vol.blocks, mapStart, Size())
      modifies window
      ensures BitsOf(window[..]) == state.store[p - mapStart]
    {
      var d := vol.BlockRead(p);
      forall i | 0 <= i < BLOCK_SIZE {
        window[i] := d[i];
      }
      assert window[..] == d;
      MapBitsAt(vol.blocks, mapStart, Size(), p - mapStart);
    }

    method TestBit(b: nat) returns (r: int)
      requires window.Length == BLOCK_SIZE && b < BITS
      ensures r == if BitsOf(window[..])[b] then 1 else 0
    {
      FirstBitsAt(window[..], BITS);
      r := BitGet(window, b);
    }

    method SetBit(b: nat, value: int)
      requires window.Length == BLOCK_SIZE && b < BITS && (value == 0 || value == 1)
      modifies window
      ensures BitsOf(window[..]) == old(BitsOf(window[..]))[b := value == 1]
    {
      FirstBitsAt(window[..], BITS);
      BitSet(window, b, value);
      FirstBitsAt(window[..], BITS);
    }

    /** Set the bit the scan found, write the window back, and number the block. */
    method TakeBit(p: nat, b: nat) returns (block: nat)
      requires 0 < mapStart < mapEnd && window.Length == BLOCK_SIZE
      requires mapStart <= p < mapEnd && ptr == p && b < BITS
      requires Safe(state, live) && state.store == MapBits(vol.blocks, mapStart, Size())
      requires Find(state) == Some(MapState(state.store, BitsOf(window[..]), p - mapStart, b))
      modifies this, window, vol`blocks
      ensures Valid() && state == Get(old(state)).0 && ptr == p
      ensures Get(old(state)).1 == Some(block - regionStart)
      ensures InRegion(block)
      ensures !old(IsLive(block)) && live == old(live) + {block - regionStart}
      ensures forall c: nat :: c < mapStart || c >= mapEnd ==> BlockAt(vol.blocks, c) == old(BlockAt(vol.blocks, c))
    {
      hide MapBits, Find, BitsOf;
      GetIsSafe(state, live);
      SetBit(b, 1);
      bit := b;
      savedPtr, savedBit := ptr, bit;
      MapBitsAfterWrite(vol.blocks, mapStart, Size(), p - mapStart, window[..]);
      vol.BlockWrite(p, window[..]);
      block := regionStart + (p - mapStart) * BITS + b;
      state, live := Get(state).0, live + {(p - mapStart) * BITS + b};
    }

    /** Step past a bit, loading the next map block, or the first again, at the end of this one. */
    method StepCursor(p: nat, b: nat, pass: nat, ghost scan: Scan) returns (p': nat, b': nat, pass': nat)
      requires 0 < mapStart < mapEnd && window.Length == BLOCK_SIZE
      requires state.store == MapBits(vol.blocks, mapStart, Size())
      requires pass == scan.pass && ptr == p == mapStart + scan.q < mapEnd && b == scan.b < BITS
      requires BitsOf(window[..]) == scan.w
      modifies this`ptr, this`bit, window
      ensures bit == b' && ptr == p' >= mapStart
      ensures Next(state, scan) == Scan(pass', p' - mapStart, BitsOf(window[..]), b')
    {
      p', b', pass' := p, (b + 1) % BITS, pass;
      bit := b';
      if b' == 0 {
        p' := p' + 1;
        if p' < mapEnd {
          ptr := p';
          Load(ptr);
        } else {
          p', ptr := mapStart, mapStart;
          Load(ptr);
          pass' := pass' + 1;
        }
      }
    }

    /** Scan from bit `b0` of the loaded map block for a clear bit, at most twice around. */
    method ScanMap(b0: nat) returns (found: bool, p: nat, b: nat)
      requires 0 < mapStart < mapEnd && window.Length == BLOCK_SIZE
      requires WellFormed(state) && state.store == MapBits(vol.blocks, mapStart, Size())
      requires ptr == mapStart + state.ptr && b0 == state.bit && BitsOf(window[..]) == state.window
      modifies this`ptr, this`bit, window
      ensures mapStart <= p < mapEnd && ptr == p && b < BITS
      ensures found ==> Find(state) == Some(MapState(state.store, BitsOf(window[..]), p - mapStart, b))
      ensures !found ==> Get(state) == (MapState(state.store, BitsOf(window[..]), p - mapStart, b), None) && bit == b
    {
      hide MapBits, Find, Get, Next;
      var pass: nat := 0;
      p, b := ptr, b0;
      ghost var scan := Scan(0, state.ptr, state.window, state.bit);
      while pass < INODE_NR_PASS
        invariant Scanned(state, scan)
        invariant pass == scan.pass && ptr == p == mapStart + scan.q && b == scan.b
        invariant BitsOf(window[..]) == scan.w && (pass == INODE_NR_PASS ==> bit == b)
        decreases INODE_NR_PASS - scan.pass, |state.store| - scan.q, BITS - scan.b
      {
        var taken := TestBit(b);
        if taken == 0 {
          ScanFound(state, scan);
          return true, p, b;
        }
        ScanOn(state, scan);
        p, b, pass := StepCursor(p, b, pass, scan);
        scan := Next(state, scan);
      }
      ScanDone(state, scan);
      found := false;
    }

    /** On the first use load the first map block; return the bit to scan from. */
    method Begin() returns (ok: bool, b0: nat)
      requires Valid()
      modifies this`ptr, window
      ensures ok <==> old(ptr) != 0 || initFs
      ensures !ok ==> Valid() && ptr == 0
      ensures ok ==> ptr == mapStart + state.ptr && b0 == state.bit && BitsOf(window[..]) == state.window
    {
      if ptr == 0 {
        if !initFs {
          return false, 0;
        }
        ptr := mapStart;
        Load(ptr);
        return true, 0;
      }
      return true, bit;
    }

    /** Allocate the first block that the scan from the cursor finds free, or fail. */
    method GetBlock() returns (r: Option<nat>)
      requires Valid()
      modifies this, window, vol`blocks
      ensures Valid()
      ensures old(ptr) == 0 && !initFs ==> r == None && state == old(state)
      ensures old(ptr) != 0 || initFs ==>
                && state == Get(old(state)).0
                && r == if Get(old(state)).1.None? then None else Some(regionStart + Get(old(state)).1.value)
      ensures r.None? <==> old(Exhausted())
      ensures Room() == if r.None? then 0 else old(Room()) - 1
      ensures old(IsExact()) ==> IsExact()
      ensures r.Some? ==> InRegion(r.value)
      ensures r.Some? ==> !old(IsLive(r.value)) && live == old(live) + {r.value - regionStart}
      ensures r.None? ==> live == old(live) && vol.blocks == old(vol.blocks)
      ensures forall b: nat :: b < mapStart || b >= mapEnd ==> BlockAt(vol.blocks, b) == old(BlockAt(vol.blocks, b))
    {
      hide MapBits, Find, Get, Exact;
      var ok, b0 := Begin();
      if !ok {
        return None;
      }
      GetCounts(state, live);
      var found, p, b := ScanMap(b0);
      if found {
        var block := TakeBit(p, b);
        return Some(block);
      }
      GetIsSafe(state, live);
      state := Get(state).0;
      return None;
    }

    /** Move the cursor to bit `b` of map block `p`, loading it unless it is in the window. */
    method PointAt(p: nat, b: nat)
      requires Valid() && mapStart <= p < mapEnd && b < BITS
      modifies this`ptr, this`bit, window
      ensures ptr == p && bit == b
      ensures BitsOf(window[..]) == if p - mapStart == state.ptr then state.window else state.store[p - mapStart]
    {
      if ptr == 0 {
        ptr := mapStart;
        Load(ptr);
      }
      if p != ptr {
        ptr, bit := p, b;
        Load(ptr);
      } else if b != bit {
        bit := b;
      }
    }

    /** Free a block of the region. Only the window changes; `warned` reports the branch that
        finds the bit clear already. */
    method FreeBlock(block: nat) returns (warned: bool)
      requires Valid() && InRegion(block)
      modifies this, window
      ensures Valid() && ptr != 0
      ensures state == Free(old(state), block - regionStart)
      ensures live == old(live) - {block - regionStart}
      ensures warned <==> !Current(old(state), block - regionStart)
      ensures old(IsLive(block)) ==> !warned
    {
      var n := block - regionStart;
      FreeIsSafe(state, live, n);
      PointAt(n / BITS + mapStart, n % BITS);
      ghost var w := BitsOf(window[..]);
      state, live := Free(state, n), live - {n};
      var taken := TestBit(bit);
      if taken == 0 {
        assert w[bit := false] == w;
        return true;
      }
      SetBit(bit, 0);
      return false;
    }

    /** Closing the device writes the window and the cursor back. */
    method CloseMap()
      requires Valid() && ptr != 0
      modifies this`savedPtr, this`savedBit, this`state, vol`blocks
      ensures Valid() && savedPtr == ptr && savedBit == bit
      ensures state == old(state.(store := state.store[state.ptr := state.window]))
      ensures forall b: nat :: b < mapStart || b >= mapEnd ==> BlockAt(vol.blocks, b) == old(BlockAt(vol.blocks, b))
    {
      MapBitsAfterWrite(vol.blocks, mapStart, Size(), ptr - mapStart, window[..]);
      vol.BlockWrite(ptr, window[..]);
      savedPtr, savedBit := ptr, bit;
      state := state.(store := state.store[state.ptr := state.window]);
    }

    /** Opening the device takes the cursor from the master block and loads its map block. */
    method OpenMap()
      requires 0 < mapStart < mapEnd && window.Length == BLOCK_SIZE
      requires savedPtr == 0 || mapStart <= savedPtr < mapEnd
      requires savedBit < BITS
      modifies this`ptr, this`bit, this`state, window
      ensures var store := MapBits(vol.blocks, mapStart, Size());
              state == if savedPtr == 0 then MapState(store, store[0], 0, 0)
                       else MapState(store, store[savedPtr - mapStart], savedPtr - mapStart, savedBit)
      ensures ptr == mapStart + state.ptr && bit == state.bit && BitsOf(window[..]) == state.window
    {
      ptr, bit := savedPtr, savedBit;
      if ptr == 0 {
        ptr, bit := mapStart, 0;
      }
      state := state.(store := MapBits(vol.blocks, mapStart, Size()));
      Load(ptr);
      state := MapState(state.store, BitsOf(window[..]), ptr - mapStart, bit);
    }

    /** Closing and opening again loses neither an allocation nor a free. */
    method Remount()
      requires Valid() && ptr != 0
      modifies this, window, vol`blocks
      ensures Valid() && live == old(live)
      ensures forall n :: 0 <= n < BITS * Size() ==> Current(state, n) == Current(old(state), n)
      ensures Clean(state)
    {
      CloseMap();
      OpenMap();
    }
  }

  lemma ZeroBits(n: nat)
    requires n <= BITS
    ensures FirstBits(Zeros(BLOCK_SIZE), n) == seq(n, _ => false)
  {
    FirstBitsAt(Zeros(BLOCK_SIZE), n);
    forall i | 0 <= i < n ensures !BitAt(Zeros(BLOCK_SIZE), i) {
      assert Zeros(BLOCK_SIZE)[i / 8] == 0;
    }
  }

  lemma ZeroMap(blocks: Disk, start: nat, size: nat)
    requires forall b :: start <= b < start + size ==> BlockAt(blocks, b) == Zeros(BLOCK_SIZE)
    ensures MapBits(blocks, start, size) == Blank(size).store
  {
    ZeroBits(BITS);
    forall q | 0 <= q < size ensures MapBits(blocks, start, size)[q] == Blank(size).store[q] {
      MapBitsAt(blocks, start, size, q);
    }
  }
}
