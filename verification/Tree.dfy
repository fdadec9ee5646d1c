// The tree of directories (inode.c): inode_get makes the absolute path of a text, cuts it into
// names, and walks down from the root. On a tree this is an injective partial map from lists
// of names to inode blocks, seen from any directory.
module Trees {
  import opened Blocks
  import opened BlockMaps
  import opened FileChain
  import opened Volumes
  import opened DirSpec
  import opened Lookups
  import opened Paths
  import opened RealPaths
  import Directories
  import FileSystems
  import PathSpec

  /** The maps of a directory and their rows. */
  datatype Folder = Folder(maps: seq<Word>, grid: Grid)

  /** The outcome of inode_get: INODE_OK, INODE_FILE_NOT_FOUND or INODE_FAIL. */
  datatype Lookup = Found(block: nat) | NotFound | Fail

  type Folders = map<nat, Folder>

  /** No directory lists two entries of one name. */
  ghost predicate Distinguished(inodes: Inodes, dirs: Folders) {
    forall b :: b in dirs ==> Distinct(Listing(dirs[b].grid), inodes)
  }

  ghost predicate Lists(dirs: Folders, b: nat, c: nat) {
    b in dirs && c in Listing(dirs[b].grid)
  }

  /** The directories `dirs` are on the disk, and every entry of one that is a directory is one
      of them. */
  ghost predicate Stored(d: Disk, inodes: Inodes, dirs: Folders) {
    && Distinguished(inodes, dirs)
    && (forall b :: b in dirs ==>
          && b in inodes && inodes[b].isDirectory && inodes[b].self == b
          && DirChain(d, inodes[b].next, dirs[b].maps, dirs[b].grid))
    && (forall b, c :: Lists(dirs, b, c) ==>
          c in inodes && inodes[c].self == c && (inodes[c].isDirectory <==> c in dirs))
  }

  /** They hang together as a tree: an entry names the directory that lists it, nothing lists
      the root, and everything else is listed. */
  ghost predicate Tree(inodes: Inodes, root: nat, dirs: Folders) {
    && Distinguished(inodes, dirs) && root in dirs
    && (forall b, c :: Lists(dirs, b, c) ==> c != root && c in inodes && inodes[c].parent == b)
    && (forall c :: c in dirs && c != root ==> c in inodes && Lists(dirs, inodes[c].parent, c))
  }

  /** Where the names lead from directory `b`. */
  ghost function Resolve(inodes: Inodes, dirs: Folders, b: nat, names: seq<string>): Lookup
    requires Distinguished(inodes, dirs)
    decreases |names|
  {
    if names == [] then Found(b)
    else if b !in dirs then Fail
    else
      var entries := Names(Listing(dirs[b].grid), inodes);
      if names[0] in entries then Resolve(inodes, dirs, entries[names[0]], names[1..]) else NotFound
  }

  // ----- names on a tree -----

  /** Directory `b` lists `c` by the name `n`. */
  ghost predicate ListsAs(inodes: Inodes, dirs: Folders, b: nat, n: string, c: nat) {
    Lists(dirs, b, c) && c in inodes && inodes[c].path == n
  }

  /** The first of the inode blocks `way` lists the second by the first name, and so on. */
  ghost predicate Way(inodes: Inodes, dirs: Folders, way: seq<nat>, names: seq<string>)
    decreases |names|
  {
    && |way| == |names| + 1
    && (names != [] ==>
          ListsAs(inodes, dirs, way[0], names[0], way[1]) && Way(inodes, dirs, way[1..], names[1..]))
  }

  /** How a walk from `b` ends: behind all the names, at a file with names left, or in a directory
      that does not list the next name. */
  ghost predicate Ends(inodes: Inodes, dirs: Folders, b: nat, names: seq<string>, way: seq<nat>, r: Lookup) {
    && 1 <= |way| <= |names| + 1 && way[0] == b
    && var n, last := |way| - 1, way[|way| - 1];
       && Way(inodes, dirs, way, names[..n])
       && if n == |names| then r == Found(last)
          else if last !in dirs then r == Fail
          else r == NotFound && forall c :: !ListsAs(inodes, dirs, last, names[n], c)
  }

  /** Every walk ends in one of these ways. */
  lemma {:induction false} EveryWalkEnds(inodes: Inodes, dirs: Folders, b: nat, names: seq<string>)
    returns (way: seq<nat>)
    requires Distinguished(inodes, dirs)
    ensures Ends(inodes, dirs, b, names, way, Resolve(inodes, dirs, b, names))
    decreases |names|
  {
    hide Distinct, Listing, Names;
    way := [b];
    if names != [] && b in dirs {
      var l := Listing(dirs[b].grid);
      ListedKnown(l, inodes);
      if names[0] in Names(l, inodes) {
        EntryOf(l, inodes, names[0]);
        var c := Names(l, inodes)[names[0]];
        var rest := EveryWalkEnds(inodes, dirs, c, names[1..]);
        way := [b] + rest;
        var n := |rest| - 1;
        assert names[..n + 1][1..] == names[1..][..n] && way[1..] == rest;
      } else {
        ListsIfNamed(inodes, dirs, b, names[0]);
      }
    }
  }

  lemma OneStepOn(inodes: Inodes, dirs: Folders, b: nat, names: seq<string>, way: seq<nat>, r: Lookup)
    requires Ends(inodes, dirs, b, names, way, r) && |way| > 1
    ensures ListsAs(inodes, dirs, b, names[0], way[1]) && Ends(inodes, dirs, way[1], names[1..], way[1..], r)
  {
    var n := |way| - 1;
    assert names[..n][1..] == names[1..][..n - 1];
  }

  lemma {:induction false} LastOfWay(inodes: Inodes, dirs: Folders, way: seq<nat>, names: seq<string>)
    requires Way(inodes, dirs, way, names) && names != []
    ensures ListsAs(inodes, dirs, way[|names| - 1], names[|names| - 1], way[|names|])
    decreases |names|
  {
    if |names| > 1 {
      LastOfWay(inodes, dirs, way[1..], names[1..]);
    }
  }

  ghost predicate EndsAtFile(inodes: Inodes, way: seq<nat>) {
    way != [] && var last := way[|way| - 1]; last in inodes && !inodes[last].isDirectory
  }

  /** On the disk, a walk that fails has come to something that is not a directory. */
  lemma FailsAtFile(d: Disk, inodes: Inodes, dirs: Folders, b: nat, names: seq<string>, way: seq<nat>)
    requires Stored(d, inodes, dirs) && b in dirs && Ends(inodes, dirs, b, names, way, Fail)
    ensures EndsAtFile(inodes, way)
  {
    hide Distinguished, Listing, DirChain;
    if |way| > 1 {
      LastOfWay(inodes, dirs, way, names[..|way| - 1]);
    }
  }

  /** And a walk that ends so is what the names resolve to. */
  lemma {:induction false} WalkEndsThere(inodes: Inodes, dirs: Folders, b: nat, names: seq<string>, way: seq<nat>,
                                         r: Lookup)
    requires Distinguished(inodes, dirs) && Ends(inodes, dirs, b, names, way, r)
    ensures r == Resolve(inodes, dirs, b, names)
    decreases |names|
  {
    hide Distinct, Listing, Names;
    if |way| > 1 {
      OneStepOn(inodes, dirs, b, names, way, r);
      NamesAt(Listing(dirs[b].grid), inodes, way[1]);
      WalkEndsThere(inodes, dirs, way[1], names[1..], way[1..], r);
    } else if names != [] && b in dirs {
      ListsIfNamed(inodes, dirs, b, names[0]);
    }
  }

  lemma ListsIfNamed(inodes: Inodes, dirs: Folders, b: nat, n: string)
    requires Distinguished(inodes, dirs) && b in dirs
    ensures n in Names(Listing(dirs[b].grid), inodes) <==> exists c :: ListsAs(inodes, dirs, b, n, c)
  {
    hide Distinct, Listing, Names;
    var l := Listing(dirs[b].grid);
    if n in Names(l, inodes) {
      EntryOf(l, inodes, n);
      ListedKnown(l, inodes);
      assert ListsAs(inodes, dirs, b, n, Names(l, inodes)[n]);
    }
    if c :| ListsAs(inodes, dirs, b, n, c) {
      NamesAt(l, inodes, c);
    }
  }

  /** The last of the names leads from a directory to an entry of it. */
  lemma {:induction false} LastStep(inodes: Inodes, dirs: Folders, b: nat, names: seq<string>, c: nat)
    returns (parent: nat)
    requires Distinguished(inodes, dirs) && names != [] && Resolve(inodes, dirs, b, names) == Found(c)
    ensures Resolve(inodes, dirs, b, names[..|names| - 1]) == Found(parent)
    ensures Lists(dirs, parent, c) && c in inodes && inodes[c].path == names[|names| - 1]
    decreases |names|
  {
    hide Distinct, Listing, Names;
    var l := Listing(dirs[b].grid);
    EntryOf(l, inodes, names[0]);
    ListedKnown(l, inodes);
    if |names| == 1 {
      parent := b;
    } else {
      parent := LastStep(inodes, dirs, Names(l, inodes)[names[0]], names[1..], c);
      assert names[1..][..|names| - 2] == names[..|names| - 1][1..];
    }
  }

  lemma ListedKnown(l: seq<nat>, inodes: Inodes)
    requires Distinct(l, inodes)
    ensures forall b :: b in l ==> b in inodes
  {
  }

  /** Different names lead to different places: an inode block has one path. */
  lemma {:induction false} OnePath(inodes: Inodes, root: nat, dirs: Folders, xs: seq<string>, ys: seq<string>, b: nat)
    requires Tree(inodes, root, dirs)
    requires Resolve(inodes, dirs, root, xs) == Found(b) && Resolve(inodes, dirs, root, ys) == Found(b)
    ensures xs == ys
    decreases |xs| + |ys|
  {
    hide Distinct, Listing, Names;
    if xs != [] {
      var p := LastStep(inodes, dirs, root, xs, b);
      if ys != [] {
        var q := LastStep(inodes, dirs, root, ys, b);
        OnePath(inodes, root, dirs, xs[..|xs| - 1], ys[..|ys| - 1], p);
        assert xs == xs[..|xs| - 1] + [xs[|xs| - 1]] && ys == ys[..|ys| - 1] + [ys[|ys| - 1]];
      }
    } else if ys != [] {
      var q := LastStep(inodes, dirs, root, ys, b);
    }
  }

  /** Names upon names. */
  lemma {:induction false} ResolveOn(inodes: Inodes, dirs: Folders, b: nat, xs: seq<string>, ys: seq<string>, c: nat)
    requires Distinguished(inodes, dirs) && Resolve(inodes, dirs, b, xs) == Found(c)
    ensures Resolve(inodes, dirs, b, xs + ys) == Resolve(inodes, dirs, c, ys)
    decreases |xs|
  {
    hide Distinct, Listing, Names;
    if xs == [] {
      assert xs + ys == ys;
    } else {
      assert (xs + ys)[1..] == xs[1..] + ys;
      ResolveOn(inodes, dirs, Names(Listing(dirs[b].grid), inodes)[xs[0]], xs[1..], ys, c);
    }
  }

  /** The names down from `up[n]` to `up[0]`, where `up` climbs to the root. */
  ghost function Down(inodes: Inodes, root: nat, up: seq<nat>, n: nat): seq<string>
    requires n < |up| && Climbs(inodes, root, up)
  {
    if n == 0 then [] else [inodes[up[n - 1]].path] + Down(inodes, root, up, n - 1)
  }

  lemma {:induction false} ClimbStays(inodes: Inodes, root: nat, dirs: Folders, up: seq<nat>, n: nat)
    requires Tree(inodes, root, dirs) && Climbs(inodes, root, up) && up[0] in dirs && n < |up|
    ensures up[n] in dirs && (n > 0 ==> Lists(dirs, up[n], up[n - 1]) && up[n - 1] in inodes)
  {
    if n > 0 {
      ClimbStays(inodes, root, dirs, up, n - 1);
      assert inodes[up[n - 1]].parent == up[n];
    }
  }

  /** Walking down the names that climbing collects ends where it began. */
  lemma {:induction false} WalkBack(inodes: Inodes, root: nat, dirs: Folders, up: seq<nat>, n: nat)
    requires Tree(inodes, root, dirs) && Climbs(inodes, root, up) && up[0] in dirs && n < |up|
    ensures Resolve(inodes, dirs, up[n], Down(inodes, root, up, n)) == Found(up[0])
  {
    hide Distinct, Listing, Names, Climbs;
    if n > 0 {
      ClimbStays(inodes, root, dirs, up, n);
      WalkBack(inodes, root, dirs, up, n - 1);
      NamesAt(Listing(dirs[up[n]].grid), inodes, up[n - 1]);
      assert Down(inodes, root, up, n)[1..] == Down(inodes, root, up, n - 1);
    }
  }

  /** The text that krealpath puts before a relative path is that of these names. */
  lemma {:induction false} UpIsJoin(inodes: Inodes, root: nat, up: seq<nat>, n: nat)
    requires Climbs(inodes, root, up) && n < |up|
    ensures Up(inodes, root, up, n) == if n == 0 then "" else "/" + PathSpec.Join(Down(inodes, root, up, n))
    ensures |Down(inodes, root, up, n)| == n
  {
    hide Climbs;
    if n > 0 {
      UpIsJoin(inodes, root, up, n - 1);
      assert Down(inodes, root, up, n)[1..] == Down(inodes, root, up, n - 1);
    }
  }

  // ----- a file system of one directory -----

  ghost function FoldersOf(fs: FileSystems.FileSystem): Folders
    requires fs.Valid()
    reads fs, fs.dir, fs.dir.vol, fs.dir.data, fs.dir.nodes, fs.dir.data.window, fs.dir.nodes.window
  {
    fs.dir.ListedFacts();
    map b | b in [fs.dir.self] + Listing(fs.dir.grid) && (b == fs.dir.self || fs.vol.inodes[b].isDirectory) ::
      if b == fs.dir.self then Folder(fs.dir.maps, fs.dir.grid) else Folder([], [])
  }

  /** Such a file system is a tree, in which a name leads to its entry. */
  lemma FlatTree(fs: FileSystems.FileSystem)
    requires fs.Valid() && fs.dir.self in fs.vol.inodes && fs.vol.inodes[fs.dir.self].isDirectory
    ensures Stored(fs.vol.blocks, fs.vol.inodes, FoldersOf(fs)) && Tree(fs.vol.inodes, fs.dir.self, FoldersOf(fs))
    ensures forall n :: Resolve(fs.vol.inodes, FoldersOf(fs), fs.dir.self, [n])
                        == if n in fs.dir.Contents() then Found(fs.dir.Contents()[n]) else NotFound
  {
    hide Compact, FileSystems.FileSystem.Valid, Directories.Directory.Valid, Distinct, Names, Listing, DirChain,
      Stored;
    FlatStored(fs);
    FlatFacts(fs);
    NothingDistinct(fs.vol.inodes);
    NothingIn();
    assert forall b, c :: Lists(FoldersOf(fs), b, c) ==> b == fs.dir.self && c in Listing(fs.dir.grid);
    forall n: string
      ensures Resolve(fs.vol.inodes, FoldersOf(fs), fs.dir.self, [n])
              == if n in fs.dir.Contents() then Found(fs.dir.Contents()[n]) else NotFound
    {
      assert [n][1..] == [];
    }
  }

  lemma FlatFacts(fs: FileSystems.FileSystem)
    requires fs.Valid() && fs.dir.self in fs.vol.inodes
    ensures var inodes, l := fs.vol.inodes, Listing(fs.dir.grid);
            && inodes[fs.dir.self].self == fs.dir.self && Distinct(l, inodes) && fs.dir.self !in l
            && fs.dir.Valid() && fs.dir.Contents() == Names(l, inodes)
            && DirChain(fs.vol.blocks, inodes[fs.dir.self].next, fs.dir.maps, fs.dir.grid)
            && forall b :: b in l ==>
                 && b in inodes && inodes[b].self == b && inodes[b].parent == fs.dir.self
                 && (inodes[b].isDirectory ==> inodes[b].next == INODE_NULL)
  {
    hide Compact, FileSystems.NoLeak, FileSystems.NodesUsed, FileSystems.Store, Distinct, Names, Listing, DirChain;
    fs.dir.ListedFacts();
  }

  lemma FlatStored(fs: FileSystems.FileSystem)
    requires fs.Valid() && fs.dir.self in fs.vol.inodes && fs.vol.inodes[fs.dir.self].isDirectory
    ensures Stored(fs.vol.blocks, fs.vol.inodes, FoldersOf(fs))
  {
    hide Compact, FileSystems.FileSystem.Valid, Distinct, Names, Listing, DirChain;
    FlatFacts(fs);
    NothingDistinct(fs.vol.inodes);
    NothingIn();
    NoChain(fs.vol.blocks);
    assert forall b, c :: Lists(FoldersOf(fs), b, c) ==> b == fs.dir.self && c in Listing(fs.dir.grid);
  }

  lemma NoChain(d: Disk)
    ensures DirChain(d, INODE_NULL, [], [])
  {
  }

  lemma NothingIn()
    ensures Listing([]) == []
  {
  }

  lemma NothingDistinct(inodes: Inodes)
    ensures Distinct(Listing([]), inodes)
  {
  }

  // ----- one entry more -----

  ghost function Contents(inodes: Inodes, dirs: Folders, b: nat): map<string, nat>
    requires Distinguished(inodes, dirs) && b in dirs
  {
    Names(Listing(dirs[b].grid), inodes)
  }

  /** Directory `b` got the entry `name`, an inode block that was in no directory, and the
      others list what they listed. */
  ghost predicate Added(inodes: Inodes, dirs: Folders, after: Inodes, dirs': Folders,
                        b: nat, name: string, block: nat)
  {
    && Distinguished(inodes, dirs) && Distinguished(after, dirs') && b in dirs && b in dirs'
    && name !in Contents(inodes, dirs, b)
    && Contents(after, dirs', b) == Contents(inodes, dirs, b)[name := block]
    && block !in dirs && (forall c :: c != block ==> (c in dirs' <==> c in dirs))
    && (forall c :: c in dirs && c != b ==> c in dirs' && Contents(after, dirs', c) == Contents(inodes, dirs, c))
    && (forall c, n :: c in dirs && n in Contents(inodes, dirs, c) ==> Contents(inodes, dirs, c)[n] != block)
  }

  lemma {:induction false} ElsewhereSame(inodes: Inodes, dirs: Folders, after: Inodes, dirs': Folders,
                                         b: nat, name: string, block: nat, a: nat, xs: seq<string>)
    requires Added(inodes, dirs, after, dirs', b, name, block) && a != block
    requires forall k :: 0 <= k < |xs| && Resolve(inodes, dirs, a, xs[..k]) == Found(b) ==> xs[k] != name
    ensures Resolve(after, dirs', a, xs) == Resolve(inodes, dirs, a, xs)
    decreases |xs|
  {
    hide Distinct, Listing, Names;
    if xs != [] && a in dirs {
      assert xs[..0] == [];
      if xs[0] in Contents(inodes, dirs, a) {
        var c := Contents(inodes, dirs, a)[xs[0]];
        forall k | 0 <= k < |xs| - 1 && Resolve(inodes, dirs, c, xs[1..][..k]) == Found(b) ensures xs[1..][k] != name {
          assert xs[..k + 1][1..] == xs[1..][..k];
        }
        ElsewhereSame(inodes, dirs, after, dirs', b, name, block, c, xs[1..]);
      }
    }
  }

  lemma NextName(xs: seq<string>, k: nat, name: string)
    requires k < |xs|
    ensures xs[k] == name ==> xs[..k] + [name] <= xs
  {
  }

  /** In a tree one entry more is one path more: the new name behind the path of its directory
      leads to the new inode, and every path that does not begin so leads where it led. Read
      backwards, an entry less is a path less. */
  lemma OnePathMore(inodes: Inodes, root: nat, dirs: Folders, after: Inodes, dirs': Folders,
                    b: nat, name: string, block: nat, p: seq<string>)
    requires Tree(inodes, root, dirs) && Added(inodes, dirs, after, dirs', b, name, block)
    requires Resolve(inodes, dirs, root, p) == Found(b)
    ensures Resolve(inodes, dirs, root, p + [name]) == NotFound
    ensures Resolve(after, dirs', root, p + [name]) == Found(block)
    ensures forall xs :: !(p + [name] <= xs) ==> Resolve(after, dirs', root, xs) == Resolve(inodes, dirs, root, xs)
  {
    hide Distinct, Listing, Names;
    ResolveOn(inodes, dirs, root, p, [name], b);
    forall xs | !(p + [name] <= xs) ensures Resolve(after, dirs', root, xs) == Resolve(inodes, dirs, root, xs) {
      forall k | 0 <= k < |xs| && Resolve(inodes, dirs, root, xs[..k]) == Found(b) ensures xs[k] != name {
        OnePath(inodes, root, dirs, xs[..k], p, b);
        NextName(xs, k, name);
      }
      ElsewhereSame(inodes, dirs, after, dirs', b, name, block, root, xs);
    }
    assert !(p + [name] <= p);
    ResolveOn(after, dirs', root, p, [name], b);
  }

  // ----- inode_get -----

  /** What inode_get makes of an absolute path: it drops the first component, which is empty
      unless krealpath lost the root. */
  ghost function Given(inodes: Inodes, dirs: Folders, root: nat, res: string): Lookup
    requires Distinguished(inodes, dirs)
  {
    var cs := PathSpec.Split(res);
    if cs == [""] then Found(root) else if |cs| <= 1 then Fail else Resolve(inodes, dirs, root, cs[1..])
  }

  /** For an absolute text without empty components inode_get goes where its names lead, unless
      the text escapes and leaves names: then it skips the first of them. */
  lemma AbsoluteLookup(inodes: Inodes, dirs: Folders, root: nat, t: string)
    requires Distinguished(inodes, dirs) && "" !in PathSpec.Split(t)
    ensures var cs := PathSpec.Split(t);
            var names := PathSpec.Fold(cs);
            Given(inodes, dirs, root, PathSpec.RealPath("/" + t))
            == if !PathSpec.Escapes(cs) || names == [] then Resolve(inodes, dirs, root, names)
               else if |names| == 1 then Fail
               else Resolve(inodes, dirs, root, names[1..])
  {
    hide PathSpec.Split, PathSpec.Fold, PathSpec.Escapes, Distinguished;
    var cs := PathSpec.Split(t);
    var names := PathSpec.Fold(cs);
    PathSpec.NamesArePlain(t);
    PathSpec.RealPathRooted(t);
    PathSpec.SplitJoin(names);
    PathSpec.SplitRooted(PathSpec.Join(names));
    if names == [] {
      PathSpec.SplitRooted("");
      PathSpec.SplitNothing();
    } else {
      assert names[0] in names;
    }
    assert ([""] + names)[1..] == names;
  }

  /** A normal absolute text is walked by its names, and ends as that walk does. */
  lemma NormalLookup(inodes: Inodes, dirs: Folders, root: nat, names: seq<string>) returns (way: seq<nat>)
    requires Distinguished(inodes, dirs) && PathSpec.Plain(names)
    ensures var res := PathSpec.RealPath("/" + PathSpec.Join(names));
            Ends(inodes, dirs, root, names, way, Given(inodes, dirs, root, res))
  {
    hide PathSpec.Split, PathSpec.Fold, PathSpec.Join, PathSpec.Escapes, Distinguished, Resolve, Ends, Given;
    way := EveryWalkEnds(inodes, dirs, root, names);
    PathSpec.SplitJoin(names);
    PathSpec.FoldOfPlain(names);
    AbsoluteLookup(inodes, dirs, root, PathSpec.Join(names));
  }

  /** "/../a/b" is looked up as "/b". */
  lemma EscapeSkipsName(inodes: Inodes, dirs: Folders, root: nat)
    requires Distinguished(inodes, dirs)
    ensures PathSpec.Resolved(PathSpec.Split("../a/b")) == "/a/b"
    ensures Given(inodes, dirs, root, PathSpec.RealPath("/" + "../a/b")) == Resolve(inodes, dirs, root, ["b"])
  {
    hide PathSpec.Split, PathSpec.Fold, Distinguished;
    PathSpec.EscapeOfTwo();
    AbsoluteLookup(inodes, dirs, root, "../a/b");
    assert ["a", "b"][1..] == ["b"];
  }

  /** A relative text without empty components that does not climb above where it starts is
      looked up from the current directory, wherever that is in the tree. */
  lemma RelativeLookup(inodes: Inodes, root: nat, dirs: Folders, up: seq<nat>, p: string)
    requires Tree(inodes, root, dirs) && Climbs(inodes, root, up) && up[0] in dirs
    requires PathSpec.Plain(Down(inodes, root, up, |up| - 1))
    requires !Absolute(p) && "" !in PathSpec.Split(p) && !PathSpec.Escapes(PathSpec.Split(p))
    ensures Given(inodes, dirs, root, PathSpec.RealPath(Prefix(inodes, root, up, p) + p))
            == Resolve(inodes, dirs, up[0], PathSpec.Fold(PathSpec.Split(p)))
  {
    hide PathSpec.Split, PathSpec.Fold, PathSpec.Escapes, PathSpec.Join, PathSpec.RealPath, Prefix, Tree,
      Distinguished, Up, Down, Resolve, Given;
    var n, names, cs := |up| - 1, Down(inodes, root, up, |up| - 1), PathSpec.Split(p);
    PrefixIsJoin(inodes, root, up, p);
    WalkBack(inodes, root, dirs, up, n);
    TopIsRoot(inodes, root, dirs, up);
    var t := if names == [] then p else PathSpec.Join(names) + "/" + p;
    PathSpec.SplitBehind(names, p);
    PathSpec.FoldBehind(names, cs);
    assert names == [] ==> names + cs == cs && names + PathSpec.Fold(cs) == PathSpec.Fold(cs);
    assert forall c :: c in names ==> c != "";
    AbsoluteLookup(inodes, dirs, root, t);
    ResolveOn(inodes, dirs, root, names, PathSpec.Fold(cs), up[0]);
  }

  lemma PrefixIsJoin(inodes: Inodes, root: nat, up: seq<nat>, p: string)
    requires Climbs(inodes, root, up) && !Absolute(p)
    ensures var names := Down(inodes, root, up, |up| - 1);
            Prefix(inodes, root, up, p) + p == "/" + if names == [] then p else PathSpec.Join(names) + "/" + p
  {
    hide Up, Down, PathSpec.Join;
    UpIsJoin(inodes, root, up, |up| - 1);
  }

  lemma TopIsRoot(inodes: Inodes, root: nat, dirs: Folders, up: seq<nat>)
    requires Tree(inodes, root, dirs) && Climbs(inodes, root, up)
    ensures up[|up| - 1] == root && Distinguished(inodes, dirs)
  {
  }

  /** The loop of inode_get over the table of names, from its second entry on. */
  method Walk(vol: Volume, root: nat, buf: array<char>, tab: array<nat>, n: nat, ghost dirs: Folders,
              ghost cs: seq<string>)
    returns (r: Lookup)
    requires Stored(vol.blocks, vol.inodes, dirs) && root in dirs
    requires 1 <= n <= tab.Length && Table(buf[..], tab[..n], cs)
    ensures r == if n == 1 then Fail else Resolve(vol.inodes, dirs, root, cs[1..])
  {
    hide Distinct, Listing, Names, Table, DirChain;
    TableSize(buf[..], tab[..n], cs);
    var i: nat, parent: nat := 1, root;
    while i < n
      invariant 1 <= i <= n && parent in vol.inodes && (vol.inodes[parent].isDirectory <==> parent in dirs)
      invariant Resolve(vol.inodes, dirs, root, cs[1..])
                == if 1 < i == n then Fail else Resolve(vol.inodes, dirs, parent, cs[i..])
    {
      TableAt(buf[..], tab[..n], cs, i);
      var path := StrAt(buf[..], tab[i]);
      var inode := vol.inodes[parent];
      if inode.isDirectory {
        if inode.next == INODE_NULL {
          NothingListed(vol.blocks, vol.inodes, dirs, parent);
          return NotFound;
        }
        var found := FindName(vol, inode.next, path, dirs[parent].maps, dirs[parent].grid);
        if found == INODE_NULL {
          return NotFound;
        }
        assert Lists(dirs, parent, found);
        assert cs[i..][1..] == cs[i + 1..];
        if i == n - 1 {
          return Found(vol.inodes[found].self);
        }
        parent := found;
      } else if i != n - 1 {
        return Fail;
      }
      i := i + 1;
    }
    return Fail;
  }

  lemma NothingListed(d: Disk, inodes: Inodes, dirs: Folders, b: nat)
    requires Stored(d, inodes, dirs) && b in dirs && inodes[b].next == INODE_NULL
    ensures Names(Listing(dirs[b].grid), inodes) == map[]
  {
    assert dirs[b].grid == [];
  }

  /** The text made absolute, cut into names, and walked. */
  method LookUp(vol: Volume, root: nat, currentDir: nat, path: string, ghost up: seq<nat>, ghost dirs: Folders)
    returns (r: Lookup)
    requires Stored(vol.blocks, vol.inodes, dirs) && root in dirs
    requires Climbs(vol.inodes, root, up) && up[0] == currentDir && NUL !in path && Roomy(vol.inodes, root, up, path)
    ensures var full := Prefix(vol.inodes, root, up, path) + path;
            r == if |full| < MAX_PATH then Given(vol.inodes, dirs, root, PathSpec.RealPath(full)) else Fail
  {
    hide Distinguished, Climbs, Up, PathSpec.Split, PathSpec.Fold, Table, Resolve, Stored, Tail;
    ghost var full := Prefix(vol.inodes, root, up, path) + path;
    var res := new char[MAX_PATH](_ => NUL);
    var resolved := KRealPath(vol, root, currentDir, path, res, up);
    if resolved.Err? {
      return Fail;
    }
    ghost var s := PathSpec.RealPath(full);
    PathSpec.RealPathFits(full);
    AlwaysRooted(vol.inodes, root, up, path);
    var tab := new nat[MAX_PATH](_ => 0);
    var n := Components(res, tab, s);
    TableSize(res[..], tab[..n], PathSpec.Split(s));
    if n == 0 {
      return Fail;
    }
    TableAt(res[..], tab[..n], PathSpec.Split(s), 0);
    if n == 1 && StrAt(res[..], tab[0]) == "" {
      return Found(root);
    }
    r := Walk(vol, root, res, tab, n, dirs, PathSpec.Split(s));
  }

  /** inode_get, apart from links and permissions, on a file system whose root is set up. A
      normal absolute text is found, not found, or fails by what its names are on disk. */
  method InodeGet(vol: Volume, root: nat, currentDir: nat, path: string, ghost up: seq<nat>, ghost dirs: Folders)
    returns (r: Lookup)
    requires Stored(vol.blocks, vol.inodes, dirs) && root in dirs
    requires Climbs(vol.inodes, root, up) && up[0] == currentDir && NUL !in path && Roomy(vol.inodes, root, up, path)
    ensures var full := Prefix(vol.inodes, root, up, path) + path;
            r == if |full| < MAX_PATH then Given(vol.inodes, dirs, root, PathSpec.RealPath(full)) else Fail
    ensures forall names :: PathSpec.Plain(names) && path == "/" + PathSpec.Join(names) && |path| < MAX_PATH ==>
              exists way :: Ends(vol.inodes, dirs, root, names, way, r) && (r == Fail ==> EndsAtFile(vol.inodes, way))
  {
    hide Distinguished, Climbs, Up, PathSpec.RealPath, PathSpec.Join, PathSpec.Plain, Given, Ends, Roomy;
    r := LookUp(vol, root, currentDir, path, up, dirs);
    forall names | PathSpec.Plain(names) && path == "/" + PathSpec.Join(names) && |path| < MAX_PATH
      ensures exists way :: Ends(vol.inodes, dirs, root, names, way, r) && (r == Fail ==> EndsAtFile(vol.inodes, way))
    {
      var way := NormalLookup(vol.inodes, dirs, root, names);
      assert Prefix(vol.inodes, root, up, path) + path == path;
      if r == Fail {
        FailsAtFile(vol.blocks, vol.inodes, dirs, root, names, way);
      }
    }
  }
}
