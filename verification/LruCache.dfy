// The LRU write-back cache of lru.c: a doubly linked queue of nodes, front first, and
// an array of node pointers that is searched from page % capacity.
module LruCache {
  import opened Counting
  import opened Blocks
  import opened CacheSpec

  // find_in_hash takes the page number as a C int.
  const PAGE_LIMIT := 0x8000_0000

  datatype BlockRtvl = BlockOk | BlockFail | BlockParam | BlockDev | BlockHash | BlockRead | BlockLogic

  /** The device under the cache. Once closed it neither reads nor writes. */
  class Device {
    var disk: Disk
    var isOpen: bool
    ghost var written: seq<nat>  // the blocks written since the device was opened, in order

    constructor (disk: Disk)
      ensures this.disk == disk && isOpen && written == []
    {
      this.disk, isOpen, written := disk, true, [];
    }

    method DiskRead(b: nat) returns (r: BlockRtvl, d: Block)
      ensures r == if isOpen then BlockOk else BlockFail
      ensures isOpen ==> d == BlockAt(disk, b)
    {
      if !isOpen {
        return BlockFail, Zeros(BLOCK_SIZE);
      }
      return BlockOk, BlockAt(disk, b);
    }

    method DiskWrite(b: nat, d: Block) returns (r: BlockRtvl)
      modifies this
      ensures isOpen == old(isOpen)
      ensures isOpen ==> r == BlockOk && disk == old(disk)[b := d] && written == old(written) + [b]
      ensures !isOpen ==> r == BlockFail && disk == old(disk) && written == old(written)
    {
      if !isOpen {
        return BlockFail;
      }
      disk := disk[b := d];
      written := written + [b];
      return BlockOk;
    }

    method Close()
      modifies this
      ensures !isOpen && disk == old(disk) && written == old(written)
    {
      isOpen := false;
    }
  }

  class QNode {
    var prev: QNode?
    var next: QNode?
    const page: nat
    var data: Block

    constructor (page: nat)
      ensures this.page == page && prev == null && next == null && data == Zeros(BLOCK_SIZE)
    {
      this.page, prev, next, data := page, null, null, Zeros(BLOCK_SIZE);
    }
  }

  class Hash {
    const capacity: nat
    const slots: array<QNode?>

    constructor (capacity: nat)
      ensures this.capacity == capacity == slots.Length && fresh(slots)
      ensures forall s :: 0 <= s < capacity ==> slots[s] == null
    {
      this.capacity := capacity;
      slots := new QNode?[capacity](_ => null);
    }

    ghost predicate Valid() {
      1 <= capacity == slots.Length
    }

    /** The slot that holds `page`, wherever in the array it was put, or -1. */
    method FindInHash(page: nat) returns (node: QNode?, position: int)
      requires Valid() && page < PAGE_LIMIT
      ensures -1 <= position < capacity
      ensures position == -1 <==> node == null
      ensures position >= 0 ==> slots[position] == node && node.page == page
      ensures position == -1 ==> forall s :: 0 <= s < capacity && slots[s] != null ==> slots[s].page != page
    {
      var index := page % capacity;
      var i := index;
      while i < capacity
        invariant index <= i <= capacity
        invariant forall s :: index <= s < i && slots[s] != null ==> slots[s].page != page
      {
        node := slots[i];
        if node != null && node.page == page {
          return node, i;
        }
        i := i + 1;
      }
      i := 0;
      while i < index
        invariant 0 <= i <= index
        invariant forall s :: (0 <= s < i || index <= s < capacity) && slots[s] != null ==> slots[s].page != page
      {
        node := slots[i];
        if node != null && node.page == page {
          return node, i;
        }
        i := i + 1;
      }
      return null, -1;
    }

    /** Put `node` into the first free slot after its home index, or return -1 when none is free. */
    method InsertInHash(node: QNode, page: nat) returns (position: int)
      requires Valid() && page < PAGE_LIMIT
      modifies slots
      ensures -1 <= position < capacity
      ensures position >= 0 ==> old(slots[position]) == null && slots[..] == old(slots[..])[position := node]
      ensures position == -1 ==> slots[..] == old(slots[..]) && null !in slots[..]
    {
      var index := page % capacity;
      var i := index;
      while i < capacity
        invariant index <= i <= capacity
        invariant slots[..] == old(slots[..])
        invariant forall s :: index <= s < i ==> slots[s] != null
      {
        if slots[i] == null {
          slots[i] := node;
          return i;
        }
        i := i + 1;
      }
      i := 0;
      while i < index
        invariant 0 <= i <= index
        invariant slots[..] == old(slots[..])
        invariant forall s :: 0 <= s < i || index <= s < capacity ==> slots[s] != null
      {
        if slots[i] == null {
          slots[i] := node;
          return i;
        }
        i := i + 1;
      }
      return -1;
    }

    /** Forget every node (the last step of closing a device). */
    method FreeHash()
      requires Valid()
      modifies slots
      ensures forall s :: 0 <= s < capacity ==> slots[s] == null
    {
      var i := 0;
      while i < capacity
        invariant 0 <= i <= capacity
        invariant forall s :: 0 <= s < i ==> slots[s] == null
      {
        slots[i] := null;
        i := i + 1;
      }
    }
  }

  /** Pigeonhole: an array filled with distinct members of `nodes` is no longer than `nodes`. */
  lemma FullSlotsNeedNodes<T>(slots: seq<T>, nodes: seq<T>)
    requires NoDup(slots) && forall x :: x in slots ==> x in nodes
    ensures |slots| <= |nodes|
  {
    ElementCount(slots);
    ElementCount(nodes);
    forall x | x in Elements(slots) ensures x in Elements(nodes) {
      assert x in nodes;
    }
    SubsetSmaller(Elements(slots), Elements(nodes));
  }

  /** Neighbours in `s` point at each other. */
  ghost predicate Chained(s: seq<QNode>)
    reads s`prev, s`next
  {
    forall i, j :: 0 <= i < |s| && 0 <= j < |s| && j == i + 1 ==> s[i].next == s[j] && s[j].prev == s[i]
  }

  lemma ChainedAppend(a: seq<QNode>, b: seq<QNode>)
    requires Chained(a) && Chained(b)
    requires a != [] && b != [] ==> a[|a| - 1].next == b[0] && b[0].prev == a[|a| - 1]
    ensures Chained(a + b)
  {
    var s := a + b;
    forall i, j | 0 <= i < |s| && 0 <= j < |s| && j == i + 1
      ensures s[i].next == s[j] && s[j].prev == s[i]
    {
      assert s[i] == if i < |a| then a[i] else b[i - |a|];
      assert s[j] == if j < |a| then a[j] else b[j - |a|];
    }
  }

  lemma ChainedSplit(a: seq<QNode>, node: QNode, b: seq<QNode>)
    requires Chained(a + [node] + b) && NoDup(a + [node] + b)
    ensures Chained(a) && Chained(b) && NoDup(a) && NoDup(b)
    ensures a != [] ==> node.prev == a[|a| - 1]
    ensures b != [] ==> node.next == b[0]
    ensures forall i :: 0 <= i < |a| ==> a[i] != node
    ensures forall j :: 0 <= j < |b| ==> b[j] != node
    ensures forall i, j :: 0 <= i < |a| && 0 <= j < |b| ==> a[i] != b[j]
  {
    var s, k := a + [node] + b, |a|;
    assert s[k] == node;
    assert forall i :: 0 <= i < k ==> a[i] == s[i];
    assert forall j :: 0 <= j < |b| ==> b[j] == s[k + 1 + j];
  }

  /** The nodes `s` hold the frames `fs`. */
  ghost predicate Holds(s: seq<QNode>, fs: seq<Frame>)
    reads s`data
  {
    && |s| == |fs|
    && forall i :: 0 <= i < |s| ==>
         fs[i].page == s[i].page && fs[i].data == s[i].data && s[i].page < PAGE_LIMIT
  }

  lemma HoldsAppend(a: seq<QNode>, fa: seq<Frame>, b: seq<QNode>, fb: seq<Frame>)
    requires Holds(a, fa) && Holds(b, fb)
    ensures Holds(a + b, fa + fb)
  {
  }

  class Queue {
    var count: nat
    const numberOfFrames: nat
    var front: QNode?
    var rear: QNode?
    const dev: Device
    ghost var nodes: seq<QNode>    // front to rear
    ghost var frames: seq<Frame>   // what the nodes hold
    ghost var repr: set<QNode>     // every node this queue may write

    constructor (dev: Device, numberOfFrames: nat)
      ensures this.dev == dev && this.numberOfFrames == numberOfFrames && nodes == [] && frames == [] && repr == {}
      ensures Linked() && count == 0
    {
      this.dev, this.numberOfFrames := dev, numberOfFrames;
      count, front, rear, nodes, frames, repr := 0, null, null, [], [], {};
    }

    /** The list is well formed from front to rear and holds no page twice. */
    ghost predicate Linked()
      reads this`front, this`rear, this`nodes, this`frames, this`repr, repr
    {
      && (forall x :: x in nodes ==> x in repr)
      && (nodes == [] ==> front == null && rear == null)
      && (nodes != [] ==>
            && front == nodes[0] && front.prev == null
            && rear == nodes[|nodes| - 1] && rear.next == null)
      && Chained(nodes)
      && Holds(nodes, frames)
      && DistinctPages(frames)
    }

    /** The occupied slots are exactly the nodes of the list, one slot for each. */
    ghost predicate Indexed(hash: Hash)
      reads this`nodes, hash.slots
    {
      && (forall s :: 0 <= s < hash.slots.Length && hash.slots[s] != null ==> hash.slots[s] in nodes)
      && (forall x :: x in nodes ==> x in hash.slots[..])
      && (forall s, t :: 0 <= s < t < hash.slots.Length && hash.slots[s] != null ==> hash.slots[s] != hash.slots[t])
    }

    ghost predicate Valid(hash: Hash)
      reads this, repr, hash.slots
    {
      && hash.Valid()
      && Linked()
      && Indexed(hash)
      && count == |nodes| <= numberOfFrames
      && 1 <= numberOfFrames <= hash.capacity
    }

    ghost function Contents(): Cache
      reads this, dev
    {
      Cache(frames, dev.disk)
    }

    /** Remove the rear node, writing its block back first. */
    method Dequeue()
      requires Linked() && count == |nodes|
      modifies this, repr, dev
      ensures Linked() && repr == old(repr) && count == |nodes| && dev.isOpen == old(dev.isOpen)
      ensures nodes == if old(nodes) == [] then [] else old(nodes)[..|old(nodes)| - 1]
      ensures frames == if old(nodes) == [] then [] else old(frames)[..|old(nodes)| - 1]
      ensures dev.isOpen && old(nodes) != [] ==>
                var last := old(frames)[|old(nodes)| - 1];
                dev.disk == Put(old(dev.disk), last) && dev.written == old(dev.written) + [last.page]
      ensures !dev.isOpen || old(nodes) == [] ==> dev.disk == old(dev.disk) && dev.written == old(dev.written)
    {
      if rear == null {
        return;
      }
      ghost var m := |nodes| - 1;
      assert m > 0 ==> rear.prev == nodes[m - 1] && nodes[m - 1] in nodes;
      if front == rear {
        front := null;
      }
      var temp := rear;
      rear := rear.prev;
      if rear != null {
        rear.next := null;
      }
      var r := dev.DiskWrite(temp.page, temp.data);
      count := count - 1;
      nodes, frames := nodes[..m], frames[..m];
    }

    /** When all frames are full, drop the rear page from the array and from the list. */
    method MakeRoom(hash: Hash) returns (r: BlockRtvl, pos: int)
      requires Valid(hash) && dev.isOpen
      modifies this, repr, hash.slots, dev
      ensures r == BlockOk
      ensures Valid(hash) && dev.isOpen && |nodes| < numberOfFrames && repr == old(repr)
      ensures old(|nodes|) < numberOfFrames ==>
                pos == -1 && nodes == old(nodes) && Contents() == old(Contents())
      ensures old(|nodes|) == numberOfFrames ==>
                && 0 <= pos < hash.capacity && hash.slots[pos] == null
                && nodes == old(nodes)[..numberOfFrames - 1]
                && Contents() == Cache(old(frames)[..numberOfFrames - 1],
                                       Put(old(dev.disk), old(frames)[numberOfFrames - 1]))
    {
      pos := -1;
      if count == numberOfFrames {
        ghost var m := |nodes| - 1;
        assert nodes[m] in hash.slots[..];
        var node: QNode?;
        node, pos := hash.FindInHash(rear.page);
        if node == null {
          return BlockLogic, pos;
        }
        assert node == nodes[m];
        hash.slots[pos] := null;
        Dequeue();
        forall x | x in nodes ensures x in hash.slots[..] {
          assert x in old(hash.slots[..]);
          var s :| 0 <= s < hash.capacity && old(hash.slots[s]) == x;
          assert hash.slots[s] == x;
        }
      }
      return BlockOk, pos;
    }

    /** Point the old front and `temp` at each other. */
    method PointFront(temp: QNode)
      requires Linked() && temp !in nodes
      modifies this`front, this`rear, repr`prev, temp`prev, temp`next
      ensures Chained([temp] + nodes)
      ensures front == temp && temp.prev == null
      ensures rear == ([temp] + nodes)[|nodes|] && rear.next == null
    {
      temp.next, temp.prev := front, null;
      if rear == null {
        rear, front := temp, temp;
      } else {
        front.prev := temp;
        front := temp;
      }
      ChainedAppend([temp], nodes);
    }

    /** Link a node that is not in the list before the front. */
    method LinkFront(temp: QNode)
      requires Linked() && temp !in nodes && temp.page < PAGE_LIMIT
      requires forall f :: f in frames ==> f.page != temp.page
      modifies this, repr`prev, temp`prev, temp`next
      ensures Linked() && nodes == [temp] + old(nodes) && count == old(count) && repr == old(repr) + {temp}
      ensures frames == [Frame(temp.page, temp.data)] + old(frames)
    {
      DistinctPagesWith(Frame(temp.page, temp.data), frames);
      HoldsAppend([temp], [Frame(temp.page, temp.data)], nodes, frames);
      PointFront(temp);
      nodes, frames, repr := [temp] + nodes, [Frame(temp.page, temp.data)] + frames, repr + {temp};
    }

    /** Enter the new front node into the array: into the slot just freed, or into a free one. */
    method EnterHash(hash: Hash, temp: QNode, pos: int) returns (r: BlockRtvl)
      requires hash.Valid() && Linked() && |nodes| <= numberOfFrames <= hash.capacity
      requires nodes != [] && nodes[0] == temp && temp !in nodes[1..] && temp.page < PAGE_LIMIT
      requires forall s :: 0 <= s < hash.capacity && hash.slots[s] != null ==> hash.slots[s] in nodes[1..]
      requires forall x :: x in nodes[1..] ==> x in hash.slots[..]
      requires forall s, t :: 0 <= s < t < hash.capacity && hash.slots[s] != null ==> hash.slots[s] != hash.slots[t]
      requires -1 <= pos < hash.capacity && (pos >= 0 ==> hash.slots[pos] == null)
      modifies hash.slots
      ensures r == BlockOk && Linked() && Indexed(hash)
    {
      ghost var kept, before := nodes[1..], hash.slots[..];
      ghost var at := pos;
      if pos != -1 {
        hash.slots[pos] := temp;
      } else {
        var slot := hash.InsertInHash(temp, temp.page);
        if slot == -1 {
          FullSlotsNeedNodes(before, kept);
          assert false;
          return BlockLogic;
        }
        at := slot;
      }
      assert nodes == [temp] + kept;
      assert hash.slots[..] == before[at := temp];
      SlotsAfterInsert(before, at, temp, kept);
      assert forall s :: 0 <= s < hash.capacity ==> hash.slots[s] == if s == at then temp else before[s];
      return BlockOk;
    }

    lemma SlotsAfterInsert(before: seq<QNode?>, at: int, temp: QNode, kept: seq<QNode>)
      requires 0 <= at < |before| && before[at] == null
      requires forall n :: n in kept ==> n in before
      ensures forall n :: n in [temp] + kept ==> n in before[at := temp]
    {
      var after := before[at := temp];
      assert after[at] == temp;
      forall n | n in kept ensures n in after {
        var s :| 0 <= s < |before| && before[s] == n;
        assert after[s] == n;
      }
    }

    /** Copy a block into the node at the front. */
    method FillFront(ghost hash: Hash, node: QNode, d: Block, ghost rest: seq<Frame>)
      requires Valid(hash) && nodes != [] && nodes[0] == node && frames == [frames[0]] + rest
      modifies this`frames, node`data
      ensures Valid(hash) && frames == [Frame(node.page, d)] + rest
    {
      assert forall i :: 0 < i < |nodes| ==> frames[0].page != frames[i].page;
      node.data := d;
      frames := [Frame(node.page, d)] + rest;
    }

    /** Read the block of the front node from the device. */
    method Fetch(ghost hash: Hash, temp: QNode, ghost rest: seq<Frame>)
      requires Valid(hash) && dev.isOpen && nodes != [] && nodes[0] == temp && frames == [frames[0]] + rest
      modifies this`frames, temp`data
      ensures Valid(hash)
      ensures frames == [Frame(temp.page, BlockAt(dev.disk, temp.page))] + rest
    {
      if rear != null {
        var ok, d := dev.DiskRead(temp.page);
        FillFront(hash, temp, d, rest);
      }
    }

    /** A new page becomes the front node and takes the freed slot or a free one. */
    method Insert(hash: Hash, page: nat, pos: int) returns (r: BlockRtvl)
      requires Valid(hash) && page < PAGE_LIMIT && |nodes| < numberOfFrames
      requires forall f :: f in frames ==> f.page != page
      requires -1 <= pos < hash.capacity && (pos >= 0 ==> hash.slots[pos] == null)
      modifies this, repr`prev, hash.slots
      ensures r == BlockOk
      ensures Valid(hash) && nodes != [] && nodes[0].page == page
      ensures fresh(nodes[0]) && repr == old(repr) + {nodes[0]}
      ensures frames == [Frame(page, Zeros(BLOCK_SIZE))] + old(frames)
    {
      hide Linked;
      var temp := new QNode(page);
      LinkFront(temp);
      assert nodes[1..] == old(nodes);
      r := EnterHash(hash, temp, pos);
      if r != BlockOk {
        return BlockLogic;
      }
      count := count + 1;
      return BlockOk;
    }

    /** A page that is not cached enters at the front; when all frames are full the page at
        the rear leaves, and the newcomer takes over its slot whatever its home index is. */
    method Enqueue(hash: Hash, page: nat) returns (r: BlockRtvl)
      requires Valid(hash) && dev.isOpen && page < PAGE_LIMIT
      requires forall f :: f in frames ==> f.page != page
      modifies this, repr, hash.slots, dev
      ensures r == BlockOk
      ensures Valid(hash) && dev.isOpen
      ensures fresh(repr - old(repr))
      ensures Contents() == Reference(old(Contents()), numberOfFrames, page)
    {
      var pos;
      r, pos := MakeRoom(hash);
      if r != BlockOk {
        return BlockLogic;
      }
      ghost var kept := frames;
      r := Insert(hash, page, pos);
      if r != BlockOk {
        return BlockLogic;
      }
      Fetch(hash, front, kept);
      ReferenceOfMiss(old(Contents()), numberOfFrames, page);
      return BlockOk;
    }

    /** Let the neighbours of `node`, which is not the front, bypass it. */
    method Bypass(node: QNode, ghost a: seq<QNode>, ghost b: seq<QNode>)
      requires Linked() && nodes == a + [node] + b && a != []
      modifies this`rear, repr`prev, repr`next
      ensures Chained(a + b)
      ensures front == (a + b)[0] && front.prev == null
      ensures rear == (a + b)[|a + b| - 1] && rear.next == null
    {
      assert nodes[0] == a[0] && nodes[|nodes| - 1] == if b == [] then node else b[|b| - 1];
      assert forall i :: 0 <= i < |nodes| ==> nodes[i].page == frames[i].page;
      ChainedSplit(a, node, b);
      assert forall x :: x in a || x in b ==> x in nodes;
      if node.prev != null {
        node.prev.next := node.next;
      }
      if node.next != null {
        node.next.prev := node.prev;
      }
      if node == rear {
        rear := node.prev;
        rear.next := null;
      }
      ChainedAppend(a, b);
    }

    /** Take the node at place `k`, not the front, out of the list. */
    method Unlink(node: QNode, ghost k: nat)
      requires Linked() && 0 < k < |nodes| && nodes[k] == node
      modifies this, repr`prev, repr`next
      ensures Linked() && count == old(count) && repr == old(repr)
      ensures nodes == old(nodes[..k] + nodes[k + 1..]) && frames == old(frames[..k] + frames[k + 1..])
      ensures node !in nodes && forall f :: f in frames ==> f.page != node.page
    {
      ghost var a, b := nodes[..k], nodes[k + 1..];
      assert nodes == a + [node] + b;
      DistinctPagesWithout(frames, k);
      HoldsAppend(a, frames[..k], b, frames[k + 1..]);
      Bypass(node, a, b);
      nodes, frames := a + b, frames[..k] + frames[k + 1..];
    }

    lemma FrontIsFirst(node: QNode, k: nat)
      requires Linked() && k < |nodes| && nodes[k] == node
      ensures |frames| == |nodes| && frames[k] == Frame(node.page, node.data) && node.page < PAGE_LIMIT && node in repr
      ensures node == front <==> k == 0
    {
      assert k > 0 ==> frames[0].page != frames[k].page;
    }

    /** Move a cached node before the front. */
    method MoveToFront(node: QNode, ghost k: nat)
      requires Linked() && k < |nodes| && nodes[k] == node
      modifies this, repr
      ensures Linked() && count == old(count) && repr == old(repr)
      ensures nodes == old([nodes[k]] + (nodes[..k] + nodes[k + 1..]))
      ensures frames == old([frames[k]] + (frames[..k] + frames[k + 1..]))
    {
      hide Linked;
      FrontIsFirst(node, k);
      if node != front {
        Unlink(node, k);
        LinkFront(node);
      }
    }

    /** A page that the array does not find is not cached. */
    lemma NotFound(hash: Hash, page: nat)
      requires Valid(hash)
      requires forall s :: 0 <= s < hash.capacity && hash.slots[s] != null ==> hash.slots[s].page != page
      ensures forall f :: f in frames ==> f.page != page
    {
      forall f | f in frames ensures f.page != page {
        var i :| 0 <= i < |frames| && frames[i] == f;
        assert nodes[i] in nodes && nodes[i] in hash.slots[..];
      }
    }

    /** The node found for a page, moved to the front; the array stays as it is. */
    method Promote(hash: Hash, node: QNode)
      requires Valid(hash) && node in hash.slots[..]
      modifies this, repr
      ensures Valid(hash) && repr == old(repr)
      ensures Contents() == Reference(old(Contents()), numberOfFrames, node.page)
    {
      hide Linked, Position, Reference;
      ghost var s :| 0 <= s < hash.slots.Length && hash.slots[s] == node;
      ghost var k :| 0 <= k < |nodes| && nodes[k] == node;
      FrontIsFirst(node, k);
      LinkedCache();
      ReferenceOfHit(Contents(), numberOfFrames, node.page, k);
      MoveToFront(node, k);
      SameMembers(old(nodes), k);
    }

    lemma LinkedCache()
      requires Linked()
      ensures |nodes| == |frames| && DistinctPages(frames)
    {
    }

    lemma SameMembers(s: seq<QNode>, k: nat)
      requires k < |s|
      ensures |[s[k]] + (s[..k] + s[k + 1..])| == |s|
      ensures forall x :: x in [s[k]] + (s[..k] + s[k + 1..]) <==> x in s
    {
      assert s == s[..k] + [s[k]] + s[k + 1..];
    }

    /** Make `page` the front of the queue, fetching it on a miss. A logic error is impossible. */
    method ReferencePage(hash: Hash, page: nat) returns (r: BlockRtvl)
      requires Valid(hash) && dev.isOpen && page < PAGE_LIMIT
      modifies this, repr, hash.slots, dev
      ensures r == BlockOk
      ensures Valid(hash) && dev.isOpen
      ensures fresh(repr - old(repr))
      ensures Contents() == Reference(old(Contents()), numberOfFrames, page)
    {
      hide Linked, Reference, Indexed;
      var node, pos := hash.FindInHash(page);
      if node == null {
        NotFound(hash, page);
        r := Enqueue(hash, page);
        if r != BlockOk {
          return BlockLogic;
        }
      } else {
        Promote(hash, node);
      }
      return BlockOk;
    }

    lemma RearIsLast(i: nat)
      requires Linked() && i < |nodes| == |frames|
      ensures nodes[i] == rear <==> i == |nodes| - 1
    {
      assert i < |nodes| - 1 ==> frames[i].page != frames[|nodes| - 1].page;
    }

    /** Write the queue back from the front. The scan ends when it meets the rear node,
        which therefore is not written. */
    method SyncQueue() returns (r: BlockRtvl)
      requires Linked() && dev.isOpen
      modifies dev
      ensures r == BlockOk && dev.isOpen
      ensures Contents() == SyncAsCoded(old(Contents()))
      ensures nodes != [] ==> dev.written == old(dev.written) + PagesOf(frames[..|nodes| - 1])
      ensures nodes == [] ==> dev.written == old(dev.written)
    {
      var ptr := front;
      ghost var i := 0;
      while ptr != rear
        invariant 0 <= i < |nodes| || (nodes == [] && i == 0)
        invariant ptr == if nodes == [] then null else nodes[i]
        invariant dev.isOpen && dev.disk == WriteBack(old(dev.disk), frames[..i])
        invariant dev.written == old(dev.written) + PagesOf(frames[..i])
        decreases |nodes| - i
      {
        assert i < |nodes| - 1 && ptr.next == nodes[i + 1];
        r := dev.DiskWrite(ptr.page, ptr.data);
        if r != BlockOk {
          return;
        }
        assert frames[..i + 1] == frames[..i] + [frames[i]];
        WriteBackMore(old(dev.disk), frames[..i], frames[i]);
        ptr := ptr.next;
        i := i + 1;
      }
      if nodes != [] {
        RearIsLast(i);
      }
      return BlockOk;
    }

    lemma RearOfSome()
      requires Linked()
      ensures |nodes| == |frames| && (rear == null <==> nodes == [])
    {
    }

    /** Dequeue until the queue is empty. On an open device every cached block is written,
        once, from the rear to the front; on a closed one nothing is. */
    method FreeQueue() returns (r: BlockRtvl)
      requires Linked() && count == |nodes|
      modifies this, repr, dev
      ensures r == BlockOk && Linked() && nodes == [] && count == 0 && dev.isOpen == old(dev.isOpen)
      ensures old(dev.isOpen) ==>
                && dev.disk == DrainedDisk(old(dev.disk), old(frames))
                && dev.written == old(dev.written) + DrainedPages(old(frames))
      ensures !old(dev.isOpen) ==> dev.disk == old(dev.disk) && dev.written == old(dev.written)
    {
      hide Linked, Put;
      while rear != null
        invariant Linked() && count == |nodes| && repr == old(repr) && dev.isOpen == old(dev.isOpen)
        invariant dev.isOpen ==>
                    DrainedDisk(dev.disk, frames) == DrainedDisk(old(dev.disk), old(frames))
        invariant dev.isOpen ==>
                    dev.written + DrainedPages(frames) == old(dev.written) + DrainedPages(old(frames))
        invariant !dev.isOpen ==> dev.disk == old(dev.disk) && dev.written == old(dev.written)
        decreases |nodes|
      {
        RearOfSome();
        ghost var disk, fs := dev.disk, frames;
        Dequeue();
        DrainedStep(disk, fs);
      }
      RearOfSome();
      return BlockOk;
    }
  }
}
