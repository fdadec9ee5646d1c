// From an empty device to an empty root directory: inode_create_fs, and the part of
// inode_get that sets the root up when it is first used.
module Roots {
  import opened Wrappers
  import opened Blocks
  import opened BlockMaps
  import opened AllocSpec
  import opened Allocation
  import opened Volumes
  import opened Layouts
  import opened DirSpec
  import opened Directories
  import opened FileSystems

  /** On a fresh map the first block handed out is the first of the region. */
  lemma FirstIsFirst(size: nat)
    requires size >= 1
    ensures Get(Blank(size)).1 == Some(0)
  {
    var s := Blank(size);
    assert FirstClear(s.window, 0) == 0;
  }

  function RootInode(node: InodeRecord, root: nat): InodeRecord {
    node.(path := "/", next := INODE_NULL, isDirectory := true, self := root, parent := root)
  }

  /** The start of inode_get: write the root inode unless it is there. INODE_ROOT_BLOCK is the
      first inode block, and the allocator has to hand out that one. */
  method SetUpRoot(vol: Volume, nodes: Allocator, root: nat) returns (ok: bool)
    requires nodes.vol == vol && nodes.Valid() && root == nodes.regionStart && root in vol.inodes
    modifies vol, nodes, nodes.window
    ensures nodes.Valid() && (old(nodes.IsExact()) ==> nodes.IsExact())
    ensures old(vol.inodes[root].path) == "/" ==> ok && vol.inodes == old(vol.inodes) && vol.blocks == old(vol.blocks)
    ensures ok && old(vol.inodes[root].path) != "/" ==>
              && vol.inodes == old(vol.inodes)[root := RootInode(old(vol.inodes[root]), root)]
              && !old(nodes.IsLive(root)) && nodes.live == old(nodes.live) + {0}
    ensures ok && old(vol.inodes[root].path) != "/" ==>
              && root in vol.inodes && vol.inodes[root].path == "/" && vol.inodes[root].isDirectory
              && vol.inodes[root].next == INODE_NULL && vol.inodes[root].self == root == vol.inodes[root].parent
    ensures !ok ==> vol.inodes == old(vol.inodes)
    ensures nodes.initFs && old(nodes.state) == Blank(nodes.Size()) ==> ok
    ensures forall b: nat :: b < nodes.mapStart || b >= nodes.mapEnd ==>
              BlockAt(vol.blocks, b) == old(BlockAt(vol.blocks, b))
  {
    var inode := vol.inodes[root];
    if inode.path != "/" {
      FirstIsFirst(nodes.Size());
      var block := nodes.GetBlock();
      if block.None? {
        return false;
      }
      if block.value != root {
        return false;
      }
      vol.InodeWrite(root, RootInode(inode, root));
    }
    ok := true;
  }

  /** A new file system of at least 2560 blocks has an empty root directory, whose two
      allocators meet everything that files and directories ask of them. */
  method Format(vol: Volume, blockStart: nat, bytes: nat) returns (dir: Directory?)
    requires bytes % BLOCK_SIZE == 0 && bytes < U32
    requires bytes / BLOCK_SIZE >= 2560 && blockStart + bytes / BLOCK_SIZE < U32 - 0x80_0000
    modifies vol
    ensures dir != null && dir.Valid() && dir.Contents() == map[]
    ensures dir.vol == vol && dir.self == LayoutOf(blockStart, bytes).value.inodeStart
    ensures dir.data.live == {} && dir.nodes.live == {0} && dir.nodes.regionStart == dir.self
    ensures dir.Counted() && dir.self in vol.inodes && vol.inodes[dir.self].path == "/"
    ensures vol.inodes[dir.self].isDirectory && vol.inodes[dir.self].parent == dir.self
  {
    hide LayoutOf, InodesReachable, DataReachable, Safe, Exact, MapBits, Blank;
    LayoutIsSound(blockStart, bytes);
    Reaches(LayoutOf(blockStart, bytes).value);
    var l, nodes, data := CreateFs(vol, blockStart, bytes);
    var root := l.value.inodeStart;
    ghost var blocks := vol.blocks;
    var ok := SetUpRoot(vol, nodes, root);
    MapBitsFrame(blocks, vol.blocks, data.mapStart, data.Size());
    dir := new Directory(vol, data, nodes, root);
  }

  /** A new file system is the empty map from names. */
  method NewFileSystem(vol: Volume, blockStart: nat, bytes: nat) returns (fs: FileSystem)
    requires bytes % BLOCK_SIZE == 0 && bytes < U32
    requires bytes / BLOCK_SIZE >= 2560 && blockStart + bytes / BLOCK_SIZE < U32 - 0x80_0000
    modifies vol
    ensures fs.Valid() && fs.vol == vol && fs.View() == map[]
    ensures fs.dir.self in vol.inodes && vol.inodes[fs.dir.self].isDirectory
  {
    var dir := Format(vol, blockStart, bytes);
    fs := new FileSystem(dir);
  }

  lemma Reaches(l: Layout)
    requires l.inodeMapStart <= l.inodeMapEnd && l.bmapMapStart <= l.bmapMapEnd
    ensures InodesReachable(l) == l.inodeStart + BITS * (l.inodeMapEnd - l.inodeMapStart)
    ensures DataReachable(l) == l.dataStart + BITS * (l.bmapMapEnd - l.bmapMapStart)
  {
  }
}
