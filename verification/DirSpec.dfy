// What a directory is, apart from where it lies: a row of slots for each of its maps, the
// entries those slots list, and the names of the entries.
module DirSpec {
  import opened Counting
  import opened BlockMaps
  import opened FileChain
  import opened Blocks
  import opened Volumes

  type Grid = seq<Slots>

  /** The used slots of a row, in order. */
  function Compact(row: seq<Word>): seq<nat> {
    if row == [] then []
    else Compact(row[..|row| - 1]) + if row[|row| - 1] == INODE_NULL then [] else [row[|row| - 1]]
  }

  lemma {:induction false} CompactHas(row: seq<Word>, b: nat)
    ensures b in Compact(row) <==> b != INODE_NULL && exists s :: 0 <= s < |row| && row[s] == b
  {
    if row != [] {
      CompactHas(row[..|row| - 1], b);
    }
  }

  /** The entries of a directory, in chain order. */
  function Listing(grid: Grid): seq<nat> {
    if grid == [] then [] else Listing(grid[..|grid| - 1]) + Compact(grid[|grid| - 1])
  }

  lemma {:induction false} ListingHas(grid: Grid, b: nat)
    ensures b in Listing(grid) <==> exists j :: 0 <= j < |grid| && b in Compact(grid[j])
  {
    hide Compact;
    if grid != [] {
      var n := |grid| - 1;
      ListingHas(grid[..n], b);
      assert b in Listing(grid) <==> b in Listing(grid[..n]) || b in Compact(grid[n]);
      if b in Listing(grid[..n]) {
        var j :| 0 <= j < n && b in Compact(grid[..n][j]);
        assert b in Compact(grid[j]);
      }
      if j :| 0 <= j < n && b in Compact(grid[j]) {
        assert grid[..n][j] == grid[j];
      }
    }
  }

  lemma {:induction false} CompactJoin(a: seq<Word>, c: seq<Word>)
    ensures Compact(a + c) == Compact(a) + Compact(c)
  {
    if c == [] {
      assert a + c == a;
    } else {
      var n := |c| - 1;
      CompactJoin(a, c[..n]);
      assert (a + c)[..|a + c| - 1] == a + c[..n];
    }
  }

  lemma {:induction false} ListingJoin(a: Grid, c: Grid)
    ensures Listing(a + c) == Listing(a) + Listing(c)
  {
    if c == [] {
      assert a + c == a;
    } else {
      var n := |c| - 1;
      ListingJoin(a, c[..n]);
      assert (a + c)[..|a + c| - 1] == a + c[..n];
    }
  }

  lemma ListingOfOne(row: Slots)
    ensures Listing([row]) == Compact(row)
  {
    assert [row][..0] == [];
  }

  lemma SplitAt<T>(a: seq<T>, j: nat)
    requires j < |a|
    ensures a == a[..j] + ([a[j]] + a[j + 1..])
  {
  }

  lemma Regroup(a: seq<nat>, b: seq<nat>, c: seq<nat>)
    ensures a + (b + c) == a + b + c
  {
  }

  /** The entries before row `j`, those of row `j`, and those behind it. */
  lemma ListingSplit(grid: Grid, j: nat)
    requires j < |grid|
    ensures Listing(grid) == Listing(grid[..j]) + Compact(grid[j]) + Listing(grid[j + 1..])
  {
    hide Listing, Compact;
    SplitAt(grid, j);
    ListingJoin(grid[..j], [grid[j]] + grid[j + 1..]);
    ListingJoin([grid[j]], grid[j + 1..]);
    ListingOfOne(grid[j]);
    Regroup(Listing(grid[..j]), Compact(grid[j]), Listing(grid[j + 1..]));
  }

  lemma RowSplit(row: seq<Word>, s: nat)
    requires s < |row|
    ensures Compact(row) == Compact(row[..s]) + Compact([row[s]]) + Compact(row[s + 1..])
  {
    hide Compact;
    SplitAt(row, s);
    CompactJoin(row[..s], [row[s]] + row[s + 1..]);
    CompactJoin([row[s]], row[s + 1..]);
    Regroup(Compact(row[..s]), Compact([row[s]]), Compact(row[s + 1..]));
  }

  function PutSlot(grid: Grid, j: nat, s: nat, b: Word): Grid
    requires j < |grid| && s < BMAP_BLOCKS
  {
    grid[j := grid[j][s := b]]
  }

  /** Position of slot `s` of row `j` in the listing. */
  function Rank(grid: Grid, j: nat, s: nat): nat
    requires j < |grid| && s < BMAP_BLOCKS
  {
    |Listing(grid[..j])| + |Compact(grid[j][..s])|
  }

  /** The listing around one slot. */
  lemma ListingAround(grid: Grid, j: nat, s: nat)
    requires j < |grid| && s < BMAP_BLOCKS
    ensures var k := Rank(grid, j, s);
            var mid := if grid[j][s] == INODE_NULL then [] else [grid[j][s]];
            && k + |mid| <= |Listing(grid)|
            && Listing(grid)[..k] == Listing(grid[..j]) + Compact(grid[j][..s])
            && Listing(grid)[k..k + |mid|] == mid
            && Listing(grid)[k + |mid|..] == Compact(grid[j][s + 1..]) + Listing(grid[j + 1..])
  {
    hide Listing;
    ListingSplit(grid, j);
    RowSplit(grid[j], s);
    var a, c := Listing(grid[..j]) + Compact(grid[j][..s]), Compact(grid[j][s + 1..]) + Listing(grid[j + 1..]);
    var mid := if grid[j][s] == INODE_NULL then [] else [grid[j][s]];
    assert [grid[j][s]][..0] == [] && Compact([grid[j][s]]) == mid;
    assert Listing(grid) == a + mid + c;
  }

  function Inserted(l: seq<nat>, k: nat, b: nat): seq<nat>
    requires k <= |l|
  {
    l[..k] + [b] + l[k..]
  }

  function Deleted(l: seq<nat>, k: nat): seq<nat>
    requires k < |l|
  {
    l[..k] + l[k + 1..]
  }

  /** Filling an empty slot inserts one entry and moves nothing else. */
  lemma ListingFilled(grid: Grid, j: nat, s: nat, b: Word)
    requires j < |grid| && s < BMAP_BLOCKS && grid[j][s] == INODE_NULL && b != INODE_NULL
    ensures Rank(grid, j, s) <= |Listing(grid)|
    ensures Listing(PutSlot(grid, j, s, b)) == Inserted(Listing(grid), Rank(grid, j, s), b)
  {
    hide Listing, Compact, Rank;
    var g, k := PutSlot(grid, j, s, b), Rank(grid, j, s);
    ListingAround(grid, j, s);
    ListingAround(g, j, s);
    SameAround(grid, j, s, b);
    assert Listing(g) == Listing(g)[..k] + Listing(g)[k..k + 1] + Listing(g)[k + 1..];
    assert Listing(grid)[k + 0..] == Listing(grid)[k..];
  }

  /** Clearing a used slot deletes its entry and moves nothing else. */
  lemma ListingCleared(grid: Grid, j: nat, s: nat)
    requires j < |grid| && s < BMAP_BLOCKS && grid[j][s] != INODE_NULL
    ensures Rank(grid, j, s) < |Listing(grid)| && Listing(grid)[Rank(grid, j, s)] == grid[j][s]
    ensures Listing(PutSlot(grid, j, s, INODE_NULL)) == Deleted(Listing(grid), Rank(grid, j, s))
  {
    hide Listing, Compact, Rank;
    var g, k := PutSlot(grid, j, s, INODE_NULL), Rank(grid, j, s);
    ListingAround(grid, j, s);
    ListingAround(g, j, s);
    SameAround(grid, j, s, INODE_NULL);
    assert Listing(grid)[k] == Listing(grid)[k..k + 1][0];
    assert Listing(g) == Listing(g)[..k] + Listing(g)[k + 0..];
  }

  lemma SameAround(grid: Grid, j: nat, s: nat, b: Word)
    requires j < |grid| && s < BMAP_BLOCKS
    ensures PutSlot(grid, j, s, b)[..j] == grid[..j] && PutSlot(grid, j, s, b)[j + 1..] == grid[j + 1..]
    ensures PutSlot(grid, j, s, b)[j][..s] == grid[j][..s] && PutSlot(grid, j, s, b)[j][s + 1..] == grid[j][s + 1..]
    ensures PutSlot(grid, j, s, b)[j][s] == b && Rank(PutSlot(grid, j, s, b), j, s) == Rank(grid, j, s)
  {
  }

  function Without<T>(a: seq<T>, j: nat): seq<T>
    requires j < |a|
  {
    a[..j] + a[j + 1..]
  }

  /** Dropping a row without entries leaves the listing alone. */
  lemma ListingWithout(grid: Grid, j: nat)
    requires j < |grid| && Compact(grid[j]) == []
    ensures Listing(Without(grid, j)) == Listing(grid)
  {
    hide Listing, Compact;
    ListingSplit(grid, j);
    ListingJoin(grid[..j], grid[j + 1..]);
  }

  // ----- names -----

  /** Every entry has an inode, and no two entries share a name. */
  ghost predicate Distinct(l: seq<nat>, inodes: Inodes) {
    && (forall b :: b in l ==> b in inodes)
    && (forall i, j :: 0 <= i < |l| && 0 <= j < |l| && i != j ==> inodes[l[i]].path != inodes[l[j]].path)
  }

  /** The finite map from names to inode blocks that a directory stands for. */
  ghost function Names(l: seq<nat>, inodes: Inodes): map<string, nat>
    requires Distinct(l, inodes)
  {
    map b | b in l :: inodes[b].path := b
  }

  lemma NamesCount(l: seq<nat>, inodes: Inodes)
    requires Distinct(l, inodes)
    ensures |Names(l, inodes)| == |l| && NoDup(l)
  {
    var paths := seq(|l|, i requires 0 <= i < |l| => inodes[l[i]].path);
    ElementCount(paths);
    forall n | n in Names(l, inodes) ensures n in Elements(paths) {
      EntryOf(l, inodes, n);
      var i :| 0 <= i < |l| && l[i] == Names(l, inodes)[n];
      assert paths[i] == n;
    }
    forall i | 0 <= i < |l| ensures paths[i] in Names(l, inodes) {
      NamesAt(l, inodes, l[i]);
    }
    assert Names(l, inodes).Keys == Elements(paths);
  }

  lemma NamesAt(l: seq<nat>, inodes: Inodes, b: nat)
    requires Distinct(l, inodes) && b in l
    ensures inodes[b].path in Names(l, inodes) && Names(l, inodes)[inodes[b].path] == b
  {
  }

  lemma EntryOf(l: seq<nat>, inodes: Inodes, n: string)
    requires Distinct(l, inodes) && n in Names(l, inodes)
    ensures Names(l, inodes)[n] in l && inodes[Names(l, inodes)[n]].path == n
  {
  }

  lemma InsertedAt(l: seq<nat>, k: nat, b: nat, i: nat)
    requires k <= |l| && i <= |l|
    ensures |Inserted(l, k, b)| == |l| + 1
    ensures Inserted(l, k, b)[i] == if i == k then b else l[if i < k then i else i - 1]
  {
  }

  lemma InsertedHas(l: seq<nat>, k: nat, b: nat, c: nat)
    requires k <= |l|
    ensures c in Inserted(l, k, b) <==> c in l || c == b
  {
    assert l == l[..k] + l[k..];
  }

  lemma DistinctInserted(l: seq<nat>, inodes: Inodes, k: nat, b: nat, node: InodeRecord)
    requires Distinct(l, inodes) && k <= |l| && b !in l && node.path !in Names(l, inodes)
    ensures Distinct(Inserted(l, k, b), inodes[b := node])
  {
    hide Inserted, Names;
    var m, after := Inserted(l, k, b), inodes[b := node];
    InsertedAt(l, k, b, k);
    forall c | c in m ensures c in after {
      InsertedHas(l, k, b, c);
    }
    forall c | c in l ensures inodes[c].path != node.path {
      NamesAt(l, inodes, c);
    }
    forall i, j | 0 <= i < |m| && 0 <= j < |m| && i != j ensures after[m[i]].path != after[m[j]].path {
      InsertedAt(l, k, b, i);
      InsertedAt(l, k, b, j);
    }
  }

  lemma NamesInserted(l: seq<nat>, inodes: Inodes, k: nat, b: nat, node: InodeRecord)
    requires Distinct(l, inodes) && k <= |l| && b !in l && node.path !in Names(l, inodes)
    ensures Distinct(Inserted(l, k, b), inodes[b := node])
    ensures Names(Inserted(l, k, b), inodes[b := node]) == Names(l, inodes)[node.path := b]
  {
    hide Inserted, Names, Distinct;
    DistinctInserted(l, inodes, k, b, node);
    var m, after := Inserted(l, k, b), inodes[b := node];
    var before, now := Names(l, inodes), Names(m, after);
    forall n | n in now ensures (n == node.path && now[n] == b) || (n in before && now[n] == before[n]) {
      EntryOf(m, after, n);
      InsertedHas(l, k, b, now[n]);
      if now[n] != b {
        NamesAt(l, inodes, now[n]);
      }
    }
    forall n | n in before ensures n in now {
      EntryOf(l, inodes, n);
      InsertedHas(l, k, b, before[n]);
      NamesAt(m, after, before[n]);
    }
    InsertedHas(l, k, b, b);
    NamesAt(m, after, b);
  }

  lemma DeletedAt(l: seq<nat>, k: nat, i: nat)
    requires k < |l| && i < |l| - 1
    ensures |Deleted(l, k)| == |l| - 1 && Deleted(l, k)[i] == l[if i < k then i else i + 1]
  {
  }

  lemma DeletedHas(l: seq<nat>, k: nat, c: nat)
    requires k < |l|
    ensures c in l <==> c in Deleted(l, k) || c == l[k]
  {
    assert l == l[..k] + [l[k]] + l[k + 1..];
  }

  lemma DistinctDeleted(l: seq<nat>, inodes: Inodes, k: nat)
    requires Distinct(l, inodes) && k < |l|
    ensures Distinct(Deleted(l, k), inodes) && l[k] !in Deleted(l, k)
  {
    var m := Deleted(l, k);
    hide Deleted;
    forall c | c in m ensures c in inodes {
      DeletedHas(l, k, c);
    }
    forall i | 0 <= i < |m| ensures m[i] != l[k] {
      DeletedAt(l, k, i);
    }
    forall i, j | 0 <= i < |m| && 0 <= j < |m| && i != j ensures inodes[m[i]].path != inodes[m[j]].path {
      DeletedAt(l, k, i);
      DeletedAt(l, k, j);
    }
  }

  lemma NamesDeleted(l: seq<nat>, inodes: Inodes, k: nat)
    requires Distinct(l, inodes) && k < |l|
    ensures Distinct(Deleted(l, k), inodes) && l[k] !in Deleted(l, k)
    ensures Names(Deleted(l, k), inodes) == Names(l, inodes) - {inodes[l[k]].path}
  {
    hide Deleted, Names;
    DistinctDeleted(l, inodes, k);
    var m, gone := Deleted(l, k), inodes[l[k]].path;
    var before, now := Names(l, inodes), Names(m, inodes);
    NamesAt(l, inodes, l[k]);
    forall n | n in now ensures n != gone && n in before && now[n] == before[n] {
      EntryOf(m, inodes, n);
      DeletedHas(l, k, now[n]);
      NamesAt(l, inodes, now[n]);
    }
    forall n | n in before && n != gone ensures n in now {
      EntryOf(l, inodes, n);
      DeletedHas(l, k, before[n]);
      NamesAt(m, inodes, before[n]);
    }
  }

  lemma NamesFrame(l: seq<nat>, inodes: Inodes, after: Inodes)
    requires Distinct(l, inodes) && forall b :: b in l ==> b in after && after[b].path == inodes[b].path
    ensures Distinct(l, after) && Names(l, after) == Names(l, inodes)
  {
  }

  // ----- entries -----

  /** The entries of directory `self`: live inodes that know themselves and the directory,
      files or directories, with different names. */
  ghost predicate Entries(l: seq<nat>, inodes: Inodes, live: set<nat>, start: nat, self: nat) {
    && Distinct(l, inodes)
    && self >= start && self - start in live && self !in l
    && forall b :: b in l ==> b >= start && b - start in live && WellMade(inodes[b], b, self)
  }

  predicate WellMade(node: InodeRecord, self: nat, parent: nat) {
    node.self == self && node.parent == parent && node.isFile == !node.isDirectory
  }

  lemma EntriesInserted(l: seq<nat>, inodes: Inodes, live: set<nat>, start: nat, self: nat, k: nat, b: nat,
                        node: InodeRecord)
    requires Entries(l, inodes, live, start, self) && k <= |l|
    requires b >= start && b - start !in live && WellMade(node, b, self) && node.path !in Names(l, inodes)
    ensures b != self && b !in l
    ensures Entries(Inserted(l, k, b), inodes[b := node], live + {b - start}, start, self)
    ensures Names(Inserted(l, k, b), inodes[b := node]) == Names(l, inodes)[node.path := b]
  {
    hide Inserted, Names, Distinct;
    NamesInserted(l, inodes, k, b, node);
    InsertedHas(l, k, b, self);
    forall c | c in Inserted(l, k, b) ensures c in l || c == b {
      InsertedHas(l, k, b, c);
    }
    assert forall c :: c in l ==> c != b;
  }

  lemma EntriesDeleted(l: seq<nat>, inodes: Inodes, live: set<nat>, start: nat, self: nat, k: nat)
    requires Entries(l, inodes, live, start, self) && k < |l|
    ensures Entries(Deleted(l, k), inodes, live - {l[k] - start}, start, self)
    ensures Names(Deleted(l, k), inodes) == Names(l, inodes) - {inodes[l[k]].path}
  {
    hide Deleted, Names, Distinct;
    NamesDeleted(l, inodes, k);
    DeletedHas(l, k, self);
    forall c | c in Deleted(l, k) ensures c in l && c != l[k] {
      DeletedHas(l, k, c);
    }
  }

  lemma EntriesFrame(l: seq<nat>, inodes: Inodes, after: Inodes, live: set<nat>, start: nat, self: nat)
    requires Entries(l, inodes, live, start, self)
    requires forall b :: b in l ==> b in after && after[b] == inodes[b]
    ensures Entries(l, after, live, start, self) && Names(l, after) == Names(l, inodes)
  {
    NamesFrame(l, inodes, after);
  }

  lemma EntriesAreOthers(l: seq<nat>, inodes: Inodes, live: set<nat>, start: nat, self: nat)
    requires Entries(l, inodes, live, start, self)
    ensures forall b :: b in l ==> b in inodes && b != self
  {
  }

  lemma EntriesDistinct(l: seq<nat>, inodes: Inodes, live: set<nat>, start: nat, self: nat)
    requires Entries(l, inodes, live, start, self)
    ensures Distinct(l, inodes)
  {
  }

  lemma EntriesSame(l: seq<nat>, inodes: Inodes, after: Inodes, live: set<nat>, start: nat, self: nat)
    requires Entries(l, inodes, live, start, self)
    requires forall b :: b in l && b in inodes ==>
               b in after && after[b].path == inodes[b].path
                 && (WellMade(inodes[b], b, self) ==> WellMade(after[b], b, self))
    ensures Entries(l, after, live, start, self) && Names(l, after) == Names(l, inodes)
  {
    NamesFrame(l, inodes, after);
  }

  /** Rewriting the record of the directory itself changes no entry. */
  lemma EntriesRelinked(l: seq<nat>, inodes: Inodes, after: Inodes, live: set<nat>, start: nat, self: nat)
    requires Entries(l, inodes, live, start, self)
    requires forall b :: b in inodes && b != self ==> b in after && after[b] == inodes[b]
    ensures Entries(l, after, live, start, self) && Names(l, after) == Names(l, inodes)
  {
    EntriesFrame(l, inodes, after, live, start, self);
  }

  /** No slot holds `v`. */
  ghost predicate NoSlotHolds(grid: Grid, v: nat) {
    forall j {:trigger grid[j]} :: 0 <= j < |grid| ==> v !in grid[j]
  }

  lemma {:induction false} CompactCount(row: seq<Word>)
    ensures |Compact(row)| <= |row| && (|Compact(row)| == |row| <==> INODE_NULL !in row)
  {
    if row != [] {
      CompactCount(row[..|row| - 1]);
      assert row == row[..|row| - 1] + [row[|row| - 1]];
    }
  }

  /** No slot is free exactly if the rows list as many entries as they have slots. */
  lemma {:induction false} SlotsCounted(grid: Grid)
    ensures |Listing(grid)| <= BMAP_BLOCKS * |grid|
    ensures NoSlotHolds(grid, INODE_NULL) <==> |Listing(grid)| == BMAP_BLOCKS * |grid|
  {
    hide Compact;
    if grid != [] {
      var n := |grid| - 1;
      SlotsCounted(grid[..n]);
      CompactCount(grid[n]);
      assert grid == grid[..n] + [grid[n]];
      assert NoSlotHolds(grid, INODE_NULL) <==> NoSlotHolds(grid[..n], INODE_NULL) && INODE_NULL !in grid[n];
    }
  }

  // ----- where entries come and go -----

  /** `b` took slot `s` of row `j`, the first free one, and nothing else changed: it is listed
      behind the entries of all the slots before, which are used. */
  ghost predicate FilledAt(before: Grid, after: Grid, b: nat, j: nat, s: nat) {
    && j < |before| == |after| && s < BMAP_BLOCKS && before[j][s] == INODE_NULL && after[j][s] == b
    && NoSlotHolds(before[..j], INODE_NULL) && INODE_NULL !in before[j][..s]
    && (forall i, t :: 0 <= i < |before| && 0 <= t < BMAP_BLOCKS && (i != j || t != s) ==> after[i][t] == before[i][t])
    && var k := BMAP_BLOCKS * j + s;
       k <= |Listing(before)| && Listing(after) == Listing(before)[..k] + [b] + Listing(before)[k..]
  }

  ghost predicate FirstFilled(before: Grid, after: Grid, b: nat) {
    exists j, s :: FilledAt(before, after, b, j, s)
  }

  lemma FilledFirst(grid: Grid, j: nat, s: nat, b: Word)
    requires j < |grid| && s < BMAP_BLOCKS && grid[j][s] == INODE_NULL && b != INODE_NULL
    requires NoSlotHolds(grid[..j], INODE_NULL) && INODE_NULL !in grid[j][..s]
    ensures FilledAt(grid, PutSlot(grid, j, s, b), b, j, s) && FirstFilled(grid, PutSlot(grid, j, s, b), b)
  {
    hide Listing, Compact, NoSlotHolds;
    ListingFilled(grid, j, s, b);
    SlotsCounted(grid[..j]);
    CompactCount(grid[j][..s]);
  }

  /** `b` is alone in a new last row. */
  ghost predicate RowAdded(before: Grid, after: Grid, b: nat) {
    && |after| == |before| + 1 && after[..|before|] == before
    && after[|before|][0] == b && (forall t :: 0 < t < BMAP_BLOCKS ==> after[|before|][t] == INODE_NULL)
    && Listing(after) == Listing(before) + [b]
  }

  lemma AddedRow(grid: Grid, b: Word)
    requires b != INODE_NULL
    ensures RowAdded(grid, grid + [RowOf(b)], b)
  {
    hide Listing, Compact;
    ListingAppended(grid, b);
    assert Listing(grid)[..|Listing(grid)|] == Listing(grid) && Listing(grid)[|Listing(grid)|..] == [];
  }

  /** `m` is `l` without one entry `b`, in the same order. */
  ghost predicate TakenOff(l: seq<nat>, b: nat, m: seq<nat>) {
    exists k :: 0 <= k < |l| && l[k] == b && m == l[..k] + l[k + 1..]
  }

  /** The slot of `b` was cleared, or its map dropped if it held nothing else. */
  ghost predicate TakenOut(maps: seq<Word>, grid: Grid, b: nat, maps': seq<Word>, grid': Grid) {
    && |maps| == |grid|
    && exists j, s :: 0 <= j < |grid| && 0 <= s < BMAP_BLOCKS && grid[j][s] == b &&
         if forall t :: 0 <= t < BMAP_BLOCKS && t != s ==> grid[j][t] == INODE_NULL then
           maps' == maps[..j] + maps[j + 1..] && grid' == grid[..j] + grid[j + 1..]
         else
           maps' == maps && grid' == grid[j := grid[j][s := INODE_NULL]]
  }

  lemma ClearedOut(maps: seq<Word>, grid: Grid, j: nat, s: nat, maps': seq<Word>, grid': Grid)
    requires |maps| == |grid| && j < |grid| && s < BMAP_BLOCKS && grid[j][s] != INODE_NULL
    requires var g := PutSlot(grid, j, s, INODE_NULL);
             if Compact(g[j]) == [] then maps' == Without(maps, j) && grid' == Without(g, j)
             else maps' == maps && grid' == g
    ensures TakenOut(maps, grid, grid[j][s], maps', grid')
  {
    hide Compact;
    var g := PutSlot(grid, j, s, INODE_NULL);
    forall t | 0 <= t < BMAP_BLOCKS && t != s ensures g[j][t] == grid[j][t] {
    }
    NothingIn(g[j]);
    if Compact(g[j]) == [] {
      assert Without(g, j) == grid[..j] + grid[j + 1..];
    }
  }

  lemma NothingIn(row: Slots)
    ensures Compact(row) == [] <==> forall t :: 0 <= t < BMAP_BLOCKS ==> row[t] == INODE_NULL
  {
    if Compact(row) != [] {
      CompactHas(row, Compact(row)[0]);
    } else {
      forall t | 0 <= t < BMAP_BLOCKS ensures row[t] == INODE_NULL {
        CompactHas(row, row[t]);
      }
    }
  }

  /** Entries are listed in the order of their slots, row by row. */
  lemma InSlotOrder(grid: Grid, i: nat, s: nat, j: nat, t: nat) returns (p: nat, q: nat)
    requires i < |grid| && s < BMAP_BLOCKS && grid[i][s] != INODE_NULL
    requires j < |grid| && t < BMAP_BLOCKS && grid[j][t] != INODE_NULL
    requires i < j || (i == j && s < t)
    ensures p < q < |Listing(grid)| && Listing(grid)[p] == grid[i][s] && Listing(grid)[q] == grid[j][t]
  {
    hide Listing, Compact;
    p, q := Rank(grid, i, s), Rank(grid, j, t);
    ListingCleared(grid, i, s);
    ListingCleared(grid, j, t);
    RankGrows(grid, i, s, j, t);
  }

  lemma RankGrows(grid: Grid, i: nat, s: nat, j: nat, t: nat)
    requires i < |grid| && s < BMAP_BLOCKS && grid[i][s] != INODE_NULL
    requires j < |grid| && t < BMAP_BLOCKS && (i < j || (i == j && s < t))
    ensures Rank(grid, i, s) < Rank(grid, j, t)
  {
    hide Listing, Compact;
    if i == j {
      assert grid[i][..t][..s] == grid[i][..s] && grid[i][..t][s] == grid[i][s];
      UsedBefore(grid[i][..t], s);
    } else {
      ListingAround(grid[..j], i, s);
      assert grid[..j][..i] == grid[..i];
    }
  }

  lemma UsedBefore(row: seq<Word>, s: nat)
    requires s < |row| && row[s] != INODE_NULL
    ensures |Compact(row[..s])| < |Compact(row)|
  {
    hide Compact;
    RowSplit(row, s);
    CompactOfOne(row[s]);
  }

  lemma ListedIsHeld(grid: Grid, b: nat)
    requires b in Listing(grid)
    ensures !NoSlotHolds(grid, b)
  {
    ListingHas(grid, b);
    var j :| 0 <= j < |grid| && b in Compact(grid[j]);
    CompactHas(grid[j], b);
  }

  lemma RowCleared(row: Slots, s: nat)
    requires s < BMAP_BLOCKS && row[s] != INODE_NULL
    ensures Compact(row[s := INODE_NULL]) == [] <==> Compact(row) == [row[s]]
  {
    RowSplit(row, s);
    RowSplit(row[s := INODE_NULL], s);
    CompactOfOne(row[s]);
    CompactOfOne(INODE_NULL);
    assert row[s := INODE_NULL][..s] == row[..s] && row[s := INODE_NULL][s + 1..] == row[s + 1..];
  }

  /** An entry is listed by one row only. */
  lemma OneRowLists(grid: Grid, inodes: Inodes, i: nat, j: nat, b: nat)
    requires Distinct(Listing(grid), inodes) && i < |grid| && j < |grid|
    requires b in Compact(grid[i]) && b in Compact(grid[j])
    ensures i == j
  {
    hide Compact, Listing;
    if i < j {
      ListedOnce(grid, inodes, i, j, b);
    } else if j < i {
      ListedOnce(grid, inodes, j, i, b);
    }
  }

  lemma ListedOnce(grid: Grid, inodes: Inodes, i: nat, j: nat, b: nat)
    requires Distinct(Listing(grid), inodes) && i < j < |grid|
    requires b in Compact(grid[i])
    ensures b !in Compact(grid[j])
  {
    hide Compact, Listing, Distinct;
    ListingSplit(grid, j);
    ListingHas(grid[..j], b);
    assert b in Compact(grid[..j][i]);
    DistinctParts(Listing(grid[..j]), Compact(grid[j]), Listing(grid[j + 1..]), inodes, b);
  }

  lemma DistinctParts(a: seq<nat>, c: seq<nat>, e: seq<nat>, inodes: Inodes, b: nat)
    requires Distinct(a + c + e, inodes) && b in a
    ensures b !in c
  {
    var l := a + c + e;
    var p :| 0 <= p < |a| && a[p] == b;
    forall q | 0 <= q < |c| ensures c[q] != b {
      assert l[p] == b && l[|a| + q] == c[q];
    }
  }

  /** A row of a valid directory lists `b` alone exactly when it has no other entry. */
  lemma RowOfOneEntry(grid: Grid, inodes: Inodes, j: nat, b: nat)
    requires Distinct(Listing(grid), inodes) && j < |grid| && Compact(grid[j]) != []
    ensures Compact(grid[j]) == [b] <==> forall t :: 0 <= t < BMAP_BLOCKS ==>
              grid[j][t] == INODE_NULL || grid[j][t] == b
  {
    hide Compact, Listing;
    var c := Compact(grid[j]);
    ListingSplit(grid, j);
    var p := |Listing(grid[..j])|;
    forall q, r | 0 <= q < |c| && 0 <= r < |c| ensures c[q] == c[r] ==> q == r {
      assert Listing(grid)[p + q] == c[q] && Listing(grid)[p + r] == c[r];
    }
    forall x ensures x in c <==> x != INODE_NULL && exists s :: 0 <= s < BMAP_BLOCKS && grid[j][s] == x {
      CompactHas(grid[j], x);
    }
    assert c[0] in c && c[|c| - 1] in c;
    if c == [b] {
      forall t | 0 <= t < BMAP_BLOCKS && grid[j][t] != INODE_NULL ensures grid[j][t] == b {
        assert grid[j][t] in c;
      }
    }
  }

  lemma EmptyListing(grid: Grid)
    ensures grid == [] ==> Listing(grid) == []
  {
  }

  lemma ListingNotNull(grid: Grid, b: nat)
    requires b in Listing(grid)
    ensures b != INODE_NULL
  {
    ListingHas(grid, b);
    var j :| 0 <= j < |grid| && b in Compact(grid[j]);
    CompactHas(grid[j], b);
  }

  lemma CompactZeros(row: seq<Word>)
    requires forall s :: 0 <= s < |row| ==> row[s] == INODE_NULL
    ensures Compact(row) == []
  {
    if Compact(row) != [] {
      CompactHas(row, Compact(row)[0]);
    }
  }

  function RowOf(b: Word): Slots {
    seq(BMAP_BLOCKS, i => if i == 0 then b else INODE_NULL)
  }

  /** A new last row with one entry. */
  lemma ListingAppended(grid: Grid, b: Word)
    requires b != INODE_NULL
    ensures Listing(grid + [RowOf(b)]) == Inserted(Listing(grid), |Listing(grid)|, b)
    ensures Compact(RowOf(b)) == [b]
  {
    ListingJoin(grid, [RowOf(b)]);
    ListingOfOne(RowOf(b));
    RowSplit(RowOf(b), 0);
    CompactZeros(RowOf(b)[1..]);
    CompactZeros(RowOf(b)[..0]);
    CompactOfOne(b);
  }

  lemma CompactOfOne(b: Word)
    ensures Compact([b]) == if b == INODE_NULL then [] else [b]
  {
    assert [b][..0] == [];
  }

  lemma RowFilled(row: Slots, s: nat, b: Word)
    requires s < BMAP_BLOCKS && b != INODE_NULL
    ensures Compact(row[s := b]) != []
  {
    CompactHas(row[s := b], b);
    assert row[s := b][s] == b;
  }

  // ----- the chain of maps -----

  /** The disk holds the rows `grid` in the maps `maps`, linked from `next`. */
  ghost predicate DirChain(d: Disk, next: nat, maps: seq<Word>, grid: Grid) {
    && |maps| == |grid|
    && next == (if maps == [] then INODE_NULL else maps[0])
    && (forall j {:trigger maps[j]} :: 0 <= j < |maps| ==> maps[j] != INODE_NULL)
    && (forall i, j :: 0 <= i < |maps| && 0 <= j < |maps| && i != j ==> maps[i] != maps[j])
    && (forall j {:trigger MapAt(d, maps[j])} :: 0 <= j < |maps| ==>
      MapAt(d, maps[j]) == BlockMap(Link(maps, j), grid[j]))
  }

  function Link(maps: seq<Word>, j: nat): Word {
    if j + 1 < |maps| then maps[j + 1] else INODE_NULL
  }

  /** The entry `b` is the only one of the first of several maps. */
  ghost predicate AloneInFirst(maps: seq<Word>, grid: Grid, b: nat) {
    |maps| > 1 && grid != [] && Compact(grid[0]) == [b]
  }

  /** No map of the chain is all empty, so the chain is empty exactly when the directory is. */
  ghost predicate NoEmptyRow(grid: Grid) {
    forall j {:trigger grid[j]} :: 0 <= j < |grid| ==> Compact(grid[j]) != []
  }

  lemma EmptyChainIff(d: Disk, next: nat, maps: seq<Word>, grid: Grid)
    requires DirChain(d, next, maps, grid) && NoEmptyRow(grid)
    ensures next == INODE_NULL <==> Listing(grid) == []
  {
    if maps != [] {
      ListingSplit(grid, 0);
    }
  }

  lemma DirChainFrame(d: Disk, e: Disk, next: nat, maps: seq<Word>, grid: Grid)
    requires DirChain(d, next, maps, grid) && forall b :: b in maps ==> BlockAt(d, b) == BlockAt(e, b)
    ensures DirChain(e, next, maps, grid)
  {
    forall j | 0 <= j < |maps| ensures MapAt(e, maps[j]) == BlockMap(Link(maps, j), grid[j]) {
      assert maps[j] in maps;
      assert MapAt(d, maps[j]) == MapAt(e, maps[j]);
    }
  }

  /** Rewriting the slots of map `j`. */
  lemma RowWritten(d: Disk, next: nat, maps: seq<Word>, grid: Grid, j: nat, row: Slots)
    requires DirChain(d, next, maps, grid) && j < |maps|
    ensures DirChain(d[maps[j] := Encode(BlockMap(Link(maps, j), row))], next, maps, grid[j := row])
  {
    var m := BlockMap(Link(maps, j), row);
    DecodeEncode(m);
    forall i | 0 <= i < |maps|
      ensures MapAt(d[maps[j] := Encode(m)], maps[i]) == BlockMap(Link(maps, i), grid[j := row][i])
    {
      assert i != j ==> maps[i] != maps[j];
      assert MapAt(d, maps[i]) == BlockMap(Link(maps, i), grid[i]);
    }
  }

  /** Linking a map block `b` behind the last one, whatever `b` holds, and then writing it. */
  lemma MapAppended(d: Disk, next: nat, maps: seq<Word>, grid: Grid, b: Word, row: Slots)
    requires DirChain(d, next, maps, grid) && maps != [] && b != INODE_NULL && b !in maps
    ensures var last := maps[|maps| - 1];
            DirChain(d[last := Encode(BlockMap(b, grid[|maps| - 1]))][b := Encode(BlockMap(INODE_NULL, row))],
              next, maps + [b], grid + [row])
  {
    hide MapAt, Encode, Link;
    var n := |maps|;
    LinksGrow(maps, b);
    var last, m, w := maps[n - 1], BlockMap(b, grid[n - 1]), BlockMap(INODE_NULL, row);
    var links, rows := maps + [b], grid + [row];
    var e := d[last := Encode(m)][b := Encode(w)];
    forall i | 0 <= i < n + 1 ensures MapAt(e, links[i]) == BlockMap(Link(links, i), rows[i]) {
      MapAtWritten(d, last, m, links[i]);
      MapAtWritten(d[last := Encode(m)], b, w, links[i]);
      if i < n {
        assert i != n - 1 ==> maps[i] != last;
        assert MapAt(d, maps[i]) == BlockMap(Link(maps, i), grid[i]);
      }
    }
  }

  lemma LinksGrow(maps: seq<Word>, b: Word)
    requires b !in maps
    ensures var links, n := maps + [b], |maps|;
            && Link(links, n) == INODE_NULL
            && forall i :: 0 <= i < n ==>
                 links[i] == maps[i] && links[i] != b && Link(links, i) == if i == n - 1 then b else Link(maps, i)
  {
    forall i | 0 <= i < |maps| ensures maps[i] != b {
      assert maps[i] in maps;
    }
  }

  lemma FirstMapWritten(d: Disk, b: Word, row: Slots)
    requires b != INODE_NULL
    ensures DirChain(d[b := Encode(BlockMap(INODE_NULL, row))], b, [b], [row])
  {
    DecodeEncode(BlockMap(INODE_NULL, row));
  }

  lemma WithoutAt<T>(a: seq<T>, j: nat, i: nat)
    requires j < |a| && i < |a| - 1
    ensures |Without(a, j)| == |a| - 1 && Without(a, j)[i] == a[if i < j then i else i + 1]
  {
  }

  /** Unlinking map `j > 0`: its predecessor takes over its link. */
  lemma MapUnlinked(d: Disk, next: nat, maps: seq<Word>, grid: Grid, j: nat)
    requires DirChain(d, next, maps, grid) && 0 < j < |maps|
    ensures DirChain(d[maps[j - 1] := Encode(BlockMap(Link(maps, j), grid[j - 1]))], next, Without(maps, j),
              Without(grid, j))
  {
    hide MapAt, Encode, Without;
    var m := BlockMap(Link(maps, j), grid[j - 1]);
    var e, left, rows := d[maps[j - 1] := Encode(m)], Without(maps, j), Without(grid, j);
    WithoutAt(maps, j, 0);
    WithoutAt(grid, j, 0);
    forall i | 0 <= i < |left| ensures left[i] == maps[if i < j then i else i + 1]
      && rows[i] == grid[if i < j then i else i + 1] {
      WithoutAt(maps, j, i);
      WithoutAt(grid, j, i);
    }
    forall i | 0 <= i < |left| ensures MapAt(e, left[i]) == BlockMap(Link(left, i), rows[i]) {
      MapAtWritten(d, maps[j - 1], m, left[i]);
    }
  }

  /** A chain is determined by the links on disk. */
  lemma {:induction false} Follows(d: Disk, next: nat, links: seq<Word>, maps: seq<Word>, grid: Grid, n: nat)
    requires DirChain(d, next, maps, grid) && 0 < n <= |links| && links[0] == next
    requires forall i {:trigger links[i]} :: 0 <= i < |links| ==> links[i] != INODE_NULL
    requires forall i {:trigger MapAt(d, links[i])} :: 0 <= i < |links| - 1 ==> MapAt(d, links[i]).next == links[i + 1]
    ensures n <= |maps| && forall i :: 0 <= i < n ==> maps[i] == links[i]
  {
    hide MapAt;
    if n > 1 {
      Follows(d, next, links, maps, grid, n - 1);
      assert MapAt(d, maps[n - 2]) == BlockMap(Link(maps, n - 2), grid[n - 2]);
      assert MapAt(d, links[n - 2]).next == links[n - 1] != INODE_NULL;
    } else {
      assert links[0] != INODE_NULL;
    }
  }

  /** If the chain on disk runs into an empty map, no rows without an empty one describe it. */
  lemma EmptyMapShows(d: Disk, next: nat, links: seq<Word>, maps: seq<Word>, grid: Grid)
    requires DirChain(d, next, maps, grid) && links != [] && links[0] == next
    requires forall i {:trigger links[i]} :: 0 <= i < |links| ==> links[i] != INODE_NULL
    requires forall i {:trigger MapAt(d, links[i])} :: 0 <= i < |links| - 1 ==> MapAt(d, links[i]).next == links[i + 1]
    requires MapAt(d, links[|links| - 1]) == EMPTY_MAP
    ensures !NoEmptyRow(grid)
  {
    var n := |links|;
    Follows(d, next, links, maps, grid, n);
    assert MapAt(d, maps[n - 1]) == BlockMap(Link(maps, n - 1), grid[n - 1]);
    CompactZeros(grid[n - 1]);
  }
}
