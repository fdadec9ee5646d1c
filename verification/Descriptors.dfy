// The two tables behind file descriptors (file.c): file_desc names slots of file_tab, and
// several descriptors may share a slot. kopen, kclose, kdup and kdup2.
module Descriptors {
  import opened Wrappers
  import opened Counting
  import opened BlockMaps
  import opened Volumes

  const MAX_FILES := 1024

  type Table = seq<Option<nat>>

  predicate Free(file: InodeRecord) {
    file.path == ""
  }

  /** Descriptor `fd` is the only one that names its slot. */
  ghost predicate Alone(ds: Table, fd: nat)
    requires fd < |ds|
  {
    forall k {:trigger ds[k]} :: 0 <= k < |ds| && k != fd ==> ds[k] != ds[fd]
  }

  /** What the last close leaves of an open file, on disk. */
  function Closed(file: InodeRecord): InodeRecord {
    file.(current := INODE_NULL, currentParent := INODE_NULL, iblock := 0, pos := 0)
  }

  function Opened(file: InodeRecord, append: bool): InodeRecord {
    file.(current := INODE_NULL, pos := if append then file.size else 0, currentParent := INODE_NULL, iblock := 0)
  }

  // ----- a free descriptor means a free slot -----

  ghost function Named(ds: Table): (r: set<nat>)
    ensures |r| <= |ds|
  {
    if ds == [] then {}
    else Named(ds[..|ds| - 1]) + if ds[|ds| - 1].Some? then {ds[|ds| - 1].value} else {}
  }

  lemma {:induction false} NamedHas(ds: Table, i: nat)
    ensures i in Named(ds) <==> Some(i) in ds
  {
    if ds != [] {
      NamedHas(ds[..|ds| - 1], i);
    }
  }

  lemma {:induction false} NamedFewer(ds: Table, k: nat)
    requires k < |ds| && ds[k] == None
    ensures |Named(ds)| < |ds|
  {
    if k < |ds| - 1 {
      NamedFewer(ds[..|ds| - 1], k);
    }
  }

  /** If every slot is named by a descriptor, every descriptor is in use. */
  lemma AllNamedAllUsed(ds: Table, k: nat)
    requires forall i :: 0 <= i < |ds| ==> Some(i) in ds
    requires k < |ds|
    ensures ds[k].Some?
  {
    if ds[k] == None {
      NamedFewer(ds, k);
      forall i | i in Interval(0, |ds|) ensures i in Named(ds) {
        NamedHas(ds, i);
      }
      SubsetSmaller(Interval(0, |ds|), Named(ds));
    }
  }

  class Process {
    const vol: Volume
    const fileTab: array<InodeRecord>
    const fileDesc: array<Option<nat>>

    constructor (vol: Volume)
      ensures Valid() && this.vol == vol && forall fd :: 0 <= fd < MAX_FILES ==> fileDesc[fd] == None
    {
      this.vol := vol;
      fileTab := new InodeRecord[MAX_FILES](_ => ZERO_INODE);
      fileDesc := new Option<nat>[MAX_FILES](_ => None);
    }

    /** Every descriptor names a slot in use, and every slot in use is named. */
    ghost predicate Valid()
      reads fileTab, fileDesc
    {
      && fileTab.Length == fileDesc.Length == MAX_FILES
      && (forall fd :: 0 <= fd < MAX_FILES && fileDesc[fd].Some? ==>
            fileDesc[fd].value < MAX_FILES && !Free(fileTab[fileDesc[fd].value]))
      && (forall i :: 0 <= i < MAX_FILES && !Free(fileTab[i]) ==> Some(i) in fileDesc[..])
    }

    predicate BadDescriptor(fd: int)
      requires fd != MAX_FILES && fileDesc.Length == MAX_FILES
      reads fileDesc
    {
      fd < 0 || fd > MAX_FILES || fileDesc[fd] == None
    }

    /** The lowest free descriptor. */
    method FreeDescriptor() returns (fd: int)
      requires Valid()
      ensures -1 <= fd < MAX_FILES
      ensures fd == -1 ==> forall k :: 0 <= k < MAX_FILES ==> fileDesc[k].Some?
      ensures fd >= 0 ==> fileDesc[fd] == None && forall k :: 0 <= k < fd ==> fileDesc[k].Some?
    {
      fd := 0;
      while fd < MAX_FILES
        invariant 0 <= fd <= MAX_FILES && forall k :: 0 <= k < fd ==> fileDesc[k].Some?
      {
        if fileDesc[fd] == None {
          return;
        }
        fd := fd + 1;
      }
      fd := -1;
    }

    /** The tables after kopen; `i` is the slot taken. */
    twostate predicate OpenedIn(fd: nat, i: nat, file: InodeRecord, append: bool)
      reads fileTab, fileDesc
    {
      && fd < fileDesc.Length && i < fileTab.Length
      && Free(old(fileTab[i])) && Some(i) !in old(fileDesc[..])
      && fileDesc[..] == old(fileDesc[..])[fd := Some(i)]
      && fileTab[..] == old(fileTab[..])[i := Opened(file, append)]
    }

    /** The end of kopen: the file gets the lowest free descriptor and a slot of its own; it
        fails only when no descriptor is free, because then a slot is free as well. */
    method Open(file: InodeRecord, append: bool) returns (fd: int)
      requires Valid() && file.path != ""
      modifies fileTab, fileDesc
      ensures Valid() && -1 <= fd < MAX_FILES
      ensures fd == -1 <==> forall k :: 0 <= k < MAX_FILES ==> old(fileDesc[k]).Some?
      ensures fd == -1 ==> fileTab[..] == old(fileTab[..]) && fileDesc[..] == old(fileDesc[..])
      ensures fd >= 0 ==>
                && old(fileDesc[fd]) == None && (forall k :: 0 <= k < fd ==> old(fileDesc[k]).Some?)
                && exists i :: OpenedIn(fd, i, file, append)
      ensures fd >= 0 ==> fileDesc[fd].Some? && 0 <= fileDesc[fd].value < MAX_FILES
      ensures fd >= 0 ==>
                var entry := fileTab[fileDesc[fd].value];
                && entry.pos == (if append then file.size else 0)
                && entry.current == INODE_NULL && entry.currentParent == INODE_NULL && entry.iblock == 0
                && entry.path == file.path && entry.self == file.self && entry.next == file.next
                && entry.size == file.size && entry.isFile == file.isFile && entry.parent == file.parent
                && entry.isDirectory == file.isDirectory && entry.refcount == file.refcount
    {
      var i := 0;
      while i < MAX_FILES
        invariant i <= MAX_FILES && fileTab[..] == old(fileTab[..]) && fileDesc[..] == old(fileDesc[..])
        invariant forall j :: 0 <= j < i ==> !Free(fileTab[j]) || forall k :: 0 <= k < MAX_FILES ==> fileDesc[k].Some?
      {
        if Free(fileTab[i]) {
          fd := FreeDescriptor();
          if fd != -1 {
            fileDesc[fd] := Some(i);
            fileTab[i] := Opened(file, append);
            StillNamed(old(fileDesc[..]), fileDesc[..], fd);
            assert fileDesc[fd] in fileDesc[..];
            assert OpenedIn(fd, i, file, append);
            return;
          }
        }
        i := i + 1;
      }
      fd := -1;
      forall k | 0 <= k < MAX_FILES ensures fileDesc[k].Some? {
        if forall j :: 0 <= j < MAX_FILES ==> !Free(fileTab[j]) {
          AllNamedAllUsed(fileDesc[..], k);
        }
      }
    }

    /** kclose: the slot goes when its last descriptor goes, and then its inode is written. */
    method Close(fd: int) returns (r: int)
      requires Valid() && fd != MAX_FILES
      modifies fileTab, fileDesc, vol`inodes
      ensures Valid()
      ensures r == if old(BadDescriptor(fd)) then -1 else 0
      ensures r == -1 ==>
                fileTab[..] == old(fileTab[..]) && fileDesc[..] == old(fileDesc[..]) && vol.inodes == old(vol.inodes)
      ensures r == 0 ==> fileDesc[..] == old(fileDesc[..])[fd := None]
      ensures r == 0 && !old(Alone(fileDesc[..], fd)) ==>
                fileTab[..] == old(fileTab[..]) && vol.inodes == old(vol.inodes)
      ensures r == 0 && old(Alone(fileDesc[..], fd)) ==>
                var i := old(fileDesc[fd]).value;
                && fileTab[..] == old(fileTab[..])[i := ZERO_INODE]
                && vol.inodes == old(vol.inodes)[old(fileTab[i]).self := Closed(old(fileTab[i]))]
      ensures r == 0 && old(Alone(fileDesc[..], fd)) ==>
                var file := old(fileTab[fileDesc[fd].value]);
                file.self in vol.inodes &&
                var closed := vol.inodes[file.self];
                && closed.pos == 0 && closed.current == INODE_NULL && closed.currentParent == INODE_NULL
                && closed.iblock == 0 && closed.size == file.size && closed.next == file.next
                && closed.path == file.path && closed.self == file.self
    {
      if BadDescriptor(fd) {
        return -1;
      }
      var slot := fileDesc[fd].value;
      var found := false;
      var i := 0;
      while i < MAX_FILES && !found
        invariant i <= MAX_FILES
        invariant !found ==> forall k :: 0 <= k < i && k != fd ==> fileDesc[k] != fileDesc[fd]
        invariant found ==> exists k :: 0 <= k < MAX_FILES && k != fd && fileDesc[k] == fileDesc[fd]
        decreases MAX_FILES - i, !found
      {
        if fileDesc[i] == fileDesc[fd] && i != fd {
          found := true;
        } else {
          i := i + 1;
        }
      }
      ghost var ds := fileDesc[..];
      OthersNamed(ds, fd);
      if found {
        fileDesc[fd] := None;
        assert fileDesc[..] == ds[fd := None];
        return 0;
      }
      vol.InodeWrite(fileTab[slot].self, Closed(fileTab[slot]));
      fileTab[slot] := ZERO_INODE;
      fileDesc[fd] := None;
      assert fileDesc[..] == ds[fd := None];
      r := 0;
    }

    /** kdup: the lowest free descriptor names the same slot. */
    method Dup(fd: int) returns (r: int)
      requires Valid() && fd != MAX_FILES
      modifies fileDesc
      ensures Valid()
      ensures r == -1 <==> old(BadDescriptor(fd)) || forall k :: 0 <= k < MAX_FILES ==> old(fileDesc[k]).Some?
      ensures r == -1 ==> fileDesc[..] == old(fileDesc[..])
      ensures r != -1 ==>
                && 0 <= r < MAX_FILES && old(fileDesc[r]) == None && (forall k :: 0 <= k < r ==> old(fileDesc[k]).Some?)
                && fileDesc[..] == old(fileDesc[..])[r := old(fileDesc[fd])]
    {
      if BadDescriptor(fd) {
        return -1;
      }
      r := FreeDescriptor();
      if r != -1 {
        fileDesc[r] := fileDesc[fd];
        StillNamed(old(fileDesc[..]), fileDesc[..], r);
      }
    }

    /** kdup2: `newfd` is closed if it is open on another file, and then names the slot of `fd`. */
    method Dup2(fd: int, newfd: int) returns (r: int)
      requires Valid() && fd != MAX_FILES && newfd != MAX_FILES
      modifies fileTab, fileDesc, vol`inodes
      ensures Valid()
      ensures r == if old(BadDescriptor(fd)) || newfd < 0 || newfd > MAX_FILES then -1 else newfd
      ensures r == -1 ==>
                fileTab[..] == old(fileTab[..]) && fileDesc[..] == old(fileDesc[..]) && vol.inodes == old(vol.inodes)
      ensures r != -1 ==> fileDesc[..] == old(fileDesc[..])[newfd := old(fileDesc[fd])]
      ensures r != -1 ==>
                var gone := old(fileDesc[newfd]);
                if gone.Some? && gone != old(fileDesc[fd]) && old(Alone(fileDesc[..], newfd)) then
                  && fileTab[..] == old(fileTab[..])[gone.value := ZERO_INODE]
                  && vol.inodes == old(vol.inodes)[old(fileTab[gone.value]).self := Closed(old(fileTab[gone.value]))]
                else
                  fileTab[..] == old(fileTab[..]) && vol.inodes == old(vol.inodes)
    {
      if BadDescriptor(fd) || newfd < 0 || newfd > MAX_FILES {
        return -1;
      }
      var slot := fileDesc[fd];
      if fileDesc[newfd] == slot {
        assert fileDesc[..] == fileDesc[..][newfd := slot];
        return newfd;
      }
      if fileDesc[newfd] != None {
        var closed := Close(newfd);
      }
      ghost var ds := fileDesc[..];
      assert ds == old(fileDesc[..])[newfd := None];
      assert ds[fd] == slot;
      fileDesc[newfd] := slot;
      StillNamed(ds, fileDesc[..], newfd);
      assert fileDesc[..] == old(fileDesc[..])[newfd := slot];
      r := newfd;
    }
  }

  /** Using a free descriptor keeps every name. */
  lemma StillNamed(before: Table, after: Table, fd: nat)
    requires fd < |before| == |after| && before[fd] == None && after == before[fd := after[fd]]
    ensures forall i: nat :: Some(i) in before ==> Some(i) in after
  {
    forall i: nat | Some(i) in before ensures Some(i) in after {
      var k :| 0 <= k < |before| && before[k] == Some(i);
      assert after[k] == Some(i);
    }
  }

  /** Freeing a descriptor keeps every name but, if it was alone, its own. */
  lemma OthersNamed(ds: Table, fd: nat)
    requires fd < |ds|
    ensures forall i: nat :: Some(i) in ds && Some(i) != ds[fd] ==> Some(i) in ds[fd := None]
    ensures !Alone(ds, fd) ==> ds[fd] in ds[fd := None]
  {
    var after := ds[fd := None];
    forall i: nat | Some(i) in ds && Some(i) != ds[fd] ensures Some(i) in after {
      var k :| 0 <= k < |ds| && ds[k] == Some(i);
      assert after[k] == Some(i);
    }
    if !Alone(ds, fd) {
      var k :| 0 <= k < |ds| && k != fd && ds[k] == ds[fd];
      assert after[k] == ds[fd];
    }
  }
}
