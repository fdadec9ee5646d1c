// krealpath (krealpath.c): climb to the root for a relative path, split, apply "." and ".."
// on a stack of pointers, and assemble what is left.
module RealPaths {
  import opened Wrappers
  import opened PathSpec
  import opened Paths
  import opened Volumes

  datatype PathError = Einval | NameTooLong
  datatype Result = Ok | Err(error: PathError)

  /** `dirs` climbs from its first element by parents to the root, the first block of the
      inode region. */
  ghost predicate Climbs(inodes: Inodes, root: nat, dirs: seq<nat>) {
    && dirs != [] && dirs[|dirs| - 1] == root
    && (forall i {:trigger dirs[i]} :: 0 <= i < |dirs| - 1 ==>
          && dirs[i] != root && dirs[i] in inodes && NUL !in inodes[dirs[i]].path)
    && (forall i, j {:trigger dirs[i], dirs[j]} :: 0 <= i < |dirs| - 1 && j == i + 1 ==>
      inodes[dirs[i]].parent == dirs[j])
  }

  /** The path down to `dirs[0]` from `dirs[n]`. */
  ghost function Up(inodes: Inodes, root: nat, dirs: seq<nat>, n: nat): string
    requires n < |dirs| && Climbs(inodes, root, dirs)
  {
    if n == 0 then "" else "/" + (inodes[dirs[n - 1]].path + Up(inodes, root, dirs, n - 1))
  }

  ghost function Prefix(inodes: Inodes, root: nat, dirs: seq<nat>, path: string): string
    requires Climbs(inodes, root, dirs)
  {
    if path != "" && path[0] == '/' then "" else Up(inodes, root, dirs, |dirs| - 1) + "/"
  }

  /** The buffers have no room for a terminator behind exactly 256 characters, and the
      splitting looks two characters past the end. */
  ghost predicate Roomy(inodes: Inodes, root: nat, dirs: seq<nat>, path: string)
    requires Climbs(inodes, root, dirs)
  {
    && (forall n :: 0 <= n < |dirs| - 1 ==>
          |Up(inodes, root, dirs, n)| + |inodes[dirs[n]].path| != MAX_PATH
            && |Up(inodes, root, dirs, n)| + |inodes[dirs[n]].path| + 1 != MAX_PATH)
    && (Absolute(path) || |Up(inodes, root, dirs, |dirs| - 1)| != MAX_PATH - 1)
    && !(MAX_PATH - 2 <= |Prefix(inodes, root, dirs, path)| + |path| <= MAX_PATH)
  }

  predicate Absolute(path: string) {
    path != "" && path[0] == '/'
  }

  /** The test of krealpath for a path that needs the current directory in front. */
  predicate StartsElsewhere(path: string)
    requires NUL !in path
  {
    var c0 := if |path| > 0 then path[0] else NUL;
    var c1 := if |path| > 1 then path[1] else NUL;
    (c0 == '.' && c1 == '/') || (c0 == '.' && c1 == '.') || c0 != '/'
  }

  /** Prepend the names on the way up to the root. */
  method Climb(vol: Volume, root: nat, currentDir: nat, tmp: array<char>, ghost dirs: seq<nat>) returns (ok: bool)
    requires Climbs(vol.inodes, root, dirs) && dirs[0] == currentDir
    requires tmp.Length == MAX_PATH && Holds(tmp[..], 0, "")
    requires forall n :: 0 <= n < |dirs| - 1 ==>
               |Up(vol.inodes, root, dirs, n)| + |vol.inodes[dirs[n]].path| != MAX_PATH
                 && |Up(vol.inodes, root, dirs, n)| + |vol.inodes[dirs[n]].path| + 1 != MAX_PATH
    modifies tmp
    ensures ok <==> |Up(vol.inodes, root, dirs, |dirs| - 1)| <= MAX_PATH
    ensures ok ==> Holds(tmp[..], 0, Up(vol.inodes, root, dirs, |dirs| - 1))
  {
    hide Up, Holds;
    var dir := currentDir;
    ghost var n := 0;
    UpStep(vol.inodes, root, dirs, 0);
    while dir != root
      invariant n < |dirs| && dir == dirs[n]
      invariant Holds(tmp[..], 0, Up(vol.inodes, root, dirs, n))
      decreases |dirs| - n
    {
      var node := vol.inodes[dir];
      assert dirs[n + 1] == node.parent;
      UpStep(vol.inodes, root, dirs, n);
      UpGrows(vol.inodes, root, dirs, n + 1, |dirs| - 1);
      ok := PushFront(tmp, node.path, Up(vol.inodes, root, dirs, n));
      if !ok {
        return;
      }
      ok := PushFront(tmp, "/", node.path + Up(vol.inodes, root, dirs, n));
      if !ok {
        return;
      }
      dir, n := node.parent, n + 1;
    }
    ok := true;
    HeldFits(tmp[..], Up(vol.inodes, root, dirs, n));
  }

  lemma HeldFits(b: seq<char>, s: string)
    requires Holds(b, 0, s)
    ensures |s| < |b|
  {
  }

  lemma UpStep(inodes: Inodes, root: nat, dirs: seq<nat>, n: nat)
    requires Climbs(inodes, root, dirs) && n < |dirs|
    ensures n == 0 ==> Up(inodes, root, dirs, n) == ""
    ensures n + 1 < |dirs| ==> Up(inodes, root, dirs, n + 1) == "/" + (inodes[dirs[n]].path + Up(inodes, root, dirs, n))
  {
  }

  lemma {:induction false} UpGrows(inodes: Inodes, root: nat, dirs: seq<nat>, n: nat, m: nat)
    requires Climbs(inodes, root, dirs) && n <= m < |dirs|
    ensures |Up(inodes, root, dirs, n)| <= |Up(inodes, root, dirs, m)|
  {
    if n < m {
      UpGrows(inodes, root, dirs, n, m - 1);
    }
  }

  // ----- splitting -----

  /** The pointers `ps` into buffer `b` are the C strings `cs`. */
  ghost predicate Table(b: seq<char>, ps: seq<nat>, cs: seq<string>) {
    |ps| == |cs| && forall k {:trigger ps[k]} :: 0 <= k < |ps| ==> Holds(b, ps[k], cs[k])
  }

  /** The strings of the table end before index `p`. */
  ghost predicate Before(ps: seq<nat>, cs: seq<string>, p: nat) {
    |ps| == |cs| && forall k {:trigger ps[k]} :: 0 <= k < |ps| ==> ps[k] + |cs[k]| < p
  }

  lemma TableKept(b: seq<char>, c: seq<char>, ps: seq<nat>, cs: seq<string>, p: nat)
    requires Table(b, ps, cs) && Before(ps, cs, p) && p <= |b| && p <= |c| && b[..p] == c[..p]
    ensures Table(c, ps, cs)
  {
    forall k | 0 <= k < |ps| ensures Holds(c, ps[k], cs[k]) {
      HoldsFrame(b, c, ps[k], cs[k], p);
    }
  }

  /** One turn of that loop: the component at `start` becomes entry `n` of the table. */
  method TakeComponent(buf: array<char>, tab: array<nat>, n: nat, start: nat, ghost t: string, ghost cs: seq<string>)
    returns (found: bool, start': nat)
    requires buf.Length == MAX_PATH && n < tab.Length && start < MAX_PATH
    requires Tail(buf[..], start, t) && (t != "" ==> start + |t| + 2 < MAX_PATH)
    requires Table(buf[..], tab[..n], cs) && Before(tab[..n], cs, start)
    modifies buf, tab
    ensures found <==> t != ""
    ensures !found ==> buf[..] == old(buf[..]) && tab[..] == old(tab[..]) && start' == start
    ensures found ==>
              && start' < MAX_PATH && Tail(buf[..], start', Rest(t)) && |Rest(t)| < |t|
              && (Rest(t) != "" ==> start' + |Rest(t)| + 2 < MAX_PATH)
              && Table(buf[..], tab[..n + 1], cs + [t[..FirstSlash(t)]])
              && Before(tab[..n + 1], cs + [t[..FirstSlash(t)]], start')
  {
    hide Rest, FirstSlash, Holds, Tail, Cut, Table, Before;
    ghost var b, ps := buf[..], tab[..n];
    var r, stop := GetNextPath(start, buf, t);
    if r.None? {
      return false, start;
    }
    CutGives(b, buf[..], start, stop, t);
    TableKept(b, buf[..], ps, cs, start);
    tab[n] := r.value;
    assert tab[..n + 1] == ps + [start];
    TableMore(buf[..], ps, cs, start, t[..FirstSlash(t)], start, stop + 1);
    return true, stop + 1;
  }

  /** Cut the text into its components, in place, and note where each one starts. */
  method Components(buf: array<char>, tab: array<nat>, ghost s: string) returns (n: nat)
    requires buf.Length == MAX_PATH && tab.Length == MAX_PATH
    requires Tail(buf[..], 0, s) && |s| + 2 < MAX_PATH
    modifies buf, tab
    ensures n < MAX_PATH && Table(buf[..], tab[..n], Split(s))
  {
    hide Split, Rest, FirstSlash, Tail, Table, Before;
    SplitWeight(s);
    SplitEmpty();
    TableEmpty(buf[..], tab[..0]);
    var start: nat, more := 0, true;
    n := 0;
    ghost var t, cs := s, [];
    while more
      invariant n == |cs| <= |s| && Split(s) == cs + Split(t)
      invariant start < MAX_PATH && Tail(buf[..], start, t) && (t != "" ==> start + |t| + 2 < MAX_PATH)
      invariant Table(buf[..], tab[..n], cs) && Before(tab[..n], cs, start)
      invariant !more ==> t == ""
      decreases |t|, more
    {
      more, start := TakeComponent(buf, tab, n, start, t, cs);
      if more {
        SplitStep(t);
        PieceAdded(cs, t[..FirstSlash(t)], Split(Rest(t)));
        n, cs, t := n + 1, cs + [t[..FirstSlash(t)]], Rest(t);
      }
    }
    assert cs + [] == cs;
  }

  lemma PieceAdded(cs: seq<string>, c: string, rest: seq<string>)
    ensures cs + ([c] + rest) == cs + [c] + rest && |cs + [c] + rest| == |cs| + 1 + |rest|
  {
  }

  lemma SplitEmpty()
    ensures Split("") == []
  {
  }

  lemma CutGives(b: seq<char>, c: seq<char>, start: nat, stop: nat, t: string)
    requires Cut(b, c, start, stop, t) && t != "" && start + |t| + 2 < |b|
    ensures |c| == |b| && start <= |b| && c[..start] == b[..start] && Holds(c, start, t[..FirstSlash(t)])
    ensures start + FirstSlash(t) < stop + 1 < |b| && Tail(c, stop + 1, Rest(t))
    ensures |Rest(t)| < |t| && (Rest(t) != "" ==> stop + 1 + |Rest(t)| + 2 < |b|)
  {
  }

  lemma TableMore(b: seq<char>, ps: seq<nat>, cs: seq<string>, i: nat, c: string, p: nat, q: nat)
    requires Table(b, ps, cs) && Holds(b, i, c)
    ensures Table(b, ps + [i], cs + [c])
    ensures Before(ps, cs, p) && p <= q && i + |c| < q ==> Before(ps + [i], cs + [c], q)
  {
  }

  // ----- the stack -----

  lemma TableAt(b: seq<char>, ps: seq<nat>, cs: seq<string>, k: nat)
    requires Table(b, ps, cs) && k < |ps|
    ensures ps[k] <= |b| && StrAt(b, ps[k]) == cs[k] && Holds(b, ps[k], cs[k])
  {
    HeldString(b, ps[k], cs[k]);
  }

  lemma FoldNext(cs: seq<string>, k: nat)
    requires k < |cs|
    ensures Fold(cs[..k + 1]) == Step(Fold(cs[..k]), cs[k])
  {
    assert cs[..k + 1] == cs[..k] + [cs[k]];
    FoldPush(cs[..k], cs[k]);
  }

  lemma TablePopped(b: seq<char>, ps: seq<nat>, cs: seq<string>)
    requires Table(b, ps, cs) && ps != []
    ensures Table(b, ps[..|ps| - 1], cs[..|cs| - 1])
  {
  }

  /** A run of "..": each one takes a name off the stack, if there is one. */
  method PopRun(buf: array<char>, tab: array<nat>, n: nat, gen: array<nat>, i0: nat, g0: nat, ghost cs: seq<string>)
    returns (i: nat, g: nat)
    requires n <= tab.Length && Table(buf[..], tab[..n], cs) && i0 < n && cs[i0] == ".."
    requires g0 <= gen.Length && Table(buf[..], gen[..g0], Fold(cs[..i0]))
    ensures i0 < i <= n && g <= g0 && Table(buf[..], gen[..g], Fold(cs[..i]))
  {
    hide Table, Fold;
    TableSize(buf[..], tab[..n], cs);
    i, g := i0, g0;
    var more := true;
    while more
      invariant i0 <= i <= n && (i > i0 || more) && g <= g0 && (more ==> i < n && cs[i] == "..")
      invariant |cs| == n && Table(buf[..], gen[..g], Fold(cs[..i]))
      decreases n - i, more
    {
      FoldNext(cs, i);
      TableSize(buf[..], gen[..g], Fold(cs[..i]));
      if g != 0 {
        TablePopped(buf[..], gen[..g], Fold(cs[..i]));
        assert gen[..g][..g - 1] == gen[..g - 1];
        g := g - 1;
      }
      i := i + 1;
      more := false;
      if i < n {
        TableAt(buf[..], tab[..n], cs, i);
        more := StrAt(buf[..], tab[i]) == "..";
      }
    }
  }

  lemma TableSize(b: seq<char>, ps: seq<nat>, cs: seq<string>)
    requires Table(b, ps, cs)
    ensures |ps| == |cs|
  {
  }

  /** The loop over the components, with the stack of pointers in `gen`. */
  method Reduce(buf: array<char>, tab: array<nat>, n: nat, gen: array<nat>, ghost cs: seq<string>) returns (g: nat)
    requires n < tab.Length && n < gen.Length && gen != tab && Table(buf[..], tab[..n], cs)
    modifies gen
    ensures g <= n && Table(buf[..], gen[..g], Fold(cs))
  {
    hide Table, Fold;
    TableSize(buf[..], tab[..n], cs);
    FoldEmpty();
    var i := 0;
    g := 0;
    assert Table(buf[..], gen[..0], []) by {
      TableEmpty(buf[..], gen[..0]);
    }
    assert cs[..0] == [];
    while i < n
      invariant g <= i <= n && Table(buf[..], gen[..g], Fold(cs[..i]))
    {
      TableAt(buf[..], tab[..n], cs, i);
      FoldNext(cs, i);
      var ptr := tab[i];
      if StrAt(buf[..], ptr) == "." {
        i := i + 1;
      } else if StrAt(buf[..], ptr) == ".." {
        i, g := PopRun(buf, tab, n, gen, i, g, cs);
      } else {
        ghost var ps := gen[..g];
        gen[g] := ptr;
        assert gen[..g + 1] == ps + [ptr];
        TableMore(buf[..], ps, Fold(cs[..i]), ptr, cs[i], 0, 0);
        g, i := g + 1, i + 1;
      }
    }
    assert cs[..n] == cs;
  }

  lemma TableEmpty(b: seq<char>, ps: seq<nat>)
    requires ps == []
    ensures Table(b, ps, []) && Before(ps, [], 0)
  {
  }

  // ----- putting the names together -----

  lemma {:induction false} WeightUpto(names: seq<string>, i: nat)
    requires i <= |names|
    ensures Weight(names[..i]) <= Weight(names)
    decreases |names| - i
  {
    if i < |names| {
      WeightUpto(names, i + 1);
      assert names[..i + 1][..i] == names[..i];
    } else {
      assert names[..i] == names;
    }
  }

  /** Join the strings of the stack with slashes; "/" if nothing is left. */
  method Assemble(buf: array<char>, gen: array<nat>, g: nat, res: array<char>, ghost names: seq<string>)
    requires g <= gen.Length && Table(buf[..], gen[..g], names) && Weight(names) < MAX_PATH
    requires res != buf && res.Length == MAX_PATH && Tail(res[..], 0, "")
    modifies res
    ensures Tail(res[..], 0, Show(names))
  {
    hide Table, Holds, Tail, Weight, Slashed, Join;
    TableSize(buf[..], gen[..g], names);
    ghost var d := "";
    StartSlashed(names);
    var i := 0;
    while i < g
      invariant i <= g && Tail(res[..], 0, d)
      invariant d == if i < g || g == 0 then Slashed(names[..i]) else Join(names)
    {
      TableAt(buf[..], gen[..g], names, i);
      TailHolds(res[..], d);
      AddName(names, i);
      NoNul(buf[..], gen[i], names[i]);
      StrCat(res, StrAt(buf[..], gen[i]), d);
      d := d + names[i];
      if i != g - 1 {
        StrCat(res, "/", d);
        d := d + "/";
      }
      i := i + 1;
    }
    TailHolds(res[..], d);
    var len := StrLen(res, d);
    if len == 0 {
      StrCat(res, "/", d);
    }
  }

  lemma TailHolds(b: seq<char>, s: string)
    requires Tail(b, 0, s)
    ensures Holds(b, 0, s)
  {
  }

  lemma StartSlashed(names: seq<string>)
    ensures Slashed(names[..0]) == "" && (names == [] ==> Join(names) == "")
  {
  }

  lemma NoNul(b: seq<char>, i: nat, s: string)
    requires Holds(b, i, s)
    ensures NUL !in s
  {
  }

  lemma AddName(names: seq<string>, i: nat)
    requires i < |names|
    ensures Slashed(names[..i + 1]) == Slashed(names[..i]) + names[i] + "/"
    ensures i == |names| - 1 ==> Join(names) == Slashed(names[..i]) + names[i]
    ensures |Slashed(names[..i])| + |names[i]| + 1 <= Weight(names)
  {
    assert names[..i + 1][..i] == names[..i];
    SlashedWeight(names[..i]);
    WeightUpto(names, i + 1);
    JoinSlashed(names);
  }

  // ----- krealpath -----

  /** The prefix in `start` and the path behind it, in a buffer of their own. */
  method Concatenated(start: array<char>, len: nat, path: string, ghost prefix: string) returns (buf: array<char>)
    requires Holds(start[..], 0, prefix) && len == |prefix| && NUL !in path && len + |path| < MAX_PATH
    ensures fresh(buf) && buf.Length == MAX_PATH && Tail(buf[..], 0, prefix + path)
  {
    buf := new char[MAX_PATH](_ => NUL);
    HeldChars(start[..], prefix);
    CopyTo(buf, 0, start[..len]);
    CopyTo(buf, len, path);
    assert buf[..len + |path|] == prefix + path;
  }

  /** The absolute path of `path` as seen from `currentDir`, or an error if it gets too long. */
  method KRealPath(vol: Volume, root: nat, currentDir: nat, path: string, res: array<char>,
                   ghost dirs: seq<nat>) returns (r: Result)
    requires Climbs(vol.inodes, root, dirs) && dirs[0] == currentDir && NUL !in path && res.Length == MAX_PATH
    requires Roomy(vol.inodes, root, dirs, path)
    modifies res
    ensures r.Ok? <==> |Prefix(vol.inodes, root, dirs, path)| + |path| < MAX_PATH
    ensures r.Ok? ==> Tail(res[..], 0, RealPath(Prefix(vol.inodes, root, dirs, path) + path))
    ensures r == Err(Einval) <==> !Absolute(path) && |Up(vol.inodes, root, dirs, |dirs| - 1)| > MAX_PATH
  {
    hide Holds, Fold, Split, Tail, Table, Up;
    ghost var prefix := Prefix(vol.inodes, root, dirs, path);
    var start := new char[MAX_PATH](_ => NUL);
    assert Holds(start[..], 0, "") by {
      EmptyHeld(start[..]);
    }
    if StartsElsewhere(path) {
      var ok := Climb(vol, root, currentDir, start, dirs);
      if !ok {
        return Err(Einval);
      }
      HeldFits(start[..], Up(vol.inodes, root, dirs, |dirs| - 1));
      StrCat(start, "/", Up(vol.inodes, root, dirs, |dirs| - 1));
    }
    var len := StrLen(start, prefix);
    if len + |path| > MAX_PATH {
      return Err(NameTooLong);
    }
    forall i | 0 <= i < MAX_PATH {
      res[i] := NUL;
    }
    EmptyTail(res[..]);
    var tab, gen := new nat[MAX_PATH](_ => 0), new nat[MAX_PATH](_ => 0);
    ghost var full := prefix + path;
    var buf := Concatenated(start, len, path, prefix);
    var n := Components(buf, tab, full);
    var g := Reduce(buf, tab, n, gen, Split(full));
    SplitWeight(full);
    FoldWeight(Split(full));
    Assemble(buf, gen, g, res, Fold(Split(full)));
    r := Ok;
  }

  lemma EmptyHeld(b: seq<char>)
    requires |b| > 0 && b[0] == NUL
    ensures Holds(b, 0, "")
  {
  }

  lemma EmptyTail(b: seq<char>)
    requires |b| > 0 && forall i :: 0 <= i < |b| ==> b[i] == NUL
    ensures Tail(b, 0, "")
  {
  }

  lemma HeldChars(b: seq<char>, s: string)
    requires Holds(b, 0, s)
    ensures |s| < |b| && b[..|s|] == s && NUL !in s
  {
  }

  /** Whatever the directory, the text that is split starts with a slash, so that
      PathSpec.RealPathExactIff and PathSpec.RealPathIsNormal speak about every call. */
  lemma AlwaysRooted(inodes: Inodes, root: nat, dirs: seq<nat>, path: string)
    requires Climbs(inodes, root, dirs)
    ensures var full := Prefix(inodes, root, dirs, path) + path;
            full != "" && full == "/" + full[1..]
  {
    var n := |dirs| - 1;
    assert n > 0 ==> Up(inodes, root, dirs, n)[0] == '/';
  }
}
