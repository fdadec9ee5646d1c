// The string routines of paths.c, on NUL-terminated character buffers.
module Paths {
  import opened Wrappers
  import opened PathSpec

  const MAX_PATH := 256
  const NUL: char := '\0'

  /** The C string `s` lies at index `i` of a buffer. */
  ghost predicate Holds(b: seq<char>, i: nat, s: string) {
    i + |s| < |b| && b[i..i + |s|] == s && NUL !in s && b[i + |s|] == NUL
  }

  /** The buffer holds the text `t` from index `p` on, and NULs behind it. */
  ghost predicate Tail(b: seq<char>, p: nat, t: string) {
    && p + |t| < |b| && b[p..p + |t|] == t && NUL !in t
    && forall k :: p + |t| <= k < |b| ==> b[k] == NUL
  }

  function StrAt(b: seq<char>, i: nat): string
    requires i <= |b|
    decreases |b| - i
  {
    if i == |b| || b[i] == NUL then "" else [b[i]] + StrAt(b, i + 1)
  }

  lemma {:induction false} HeldString(b: seq<char>, i: nat, s: string)
    requires Holds(b, i, s)
    ensures StrAt(b, i) == s
    decreases |s|
  {
    if s != "" {
      assert s[0] == b[i] && s[0] in s && s[1..] == b[i + 1..i + |s|];
      HeldString(b, i + 1, s[1..]);
    }
  }

  lemma HoldsFrame(b: seq<char>, c: seq<char>, i: nat, s: string, p: nat)
    requires Holds(b, i, s) && i + |s| < p <= |b| && p <= |c| && b[..p] == c[..p]
    ensures Holds(c, i, s)
  {
    assert b[i..i + |s|] == b[..p][i..i + |s|] && c[i..i + |s|] == c[..p][i..i + |s|];
    assert c[i + |s|] == c[..p][i + |s|] && b[i + |s|] == b[..p][i + |s|];
  }

  method StrLen(b: array<char>, ghost s: string) returns (n: nat)
    requires Holds(b[..], 0, s)
    ensures n == |s|
  {
    assert forall k :: 0 <= k < |s| ==> b[k] == b[..][0..|s|][k] && s[k] in s;
    n := 0;
    while b[n] != NUL
      invariant n <= |s|
      decreases |s| - n
    {
      n := n + 1;
    }
  }

  /** Copy the characters of `s` to `b[i..]`. */
  method CopyTo(b: array<char>, i: nat, s: string)
    requires i + |s| <= b.Length
    modifies b
    ensures b[..] == old(b[..i]) + s + old(b[i + |s|..])
  {
    var k := 0;
    while k < |s|
      invariant k <= |s|
      invariant b[..] == old(b[..i]) + s[..k] + old(b[i + k..])
    {
      b[i + k] := s[k];
      k := k + 1;
    }
  }

  /** strcat. */
  method StrCat(dst: array<char>, s: string, ghost d: string)
    requires Holds(dst[..], 0, d) && NUL !in s && |d| + |s| < dst.Length
    modifies dst
    ensures Holds(dst[..], 0, d + s) && (old(Tail(dst[..], 0, d)) ==> Tail(dst[..], 0, d + s))
  {
    var n := StrLen(dst, d);
    CopyTo(dst, n, s + [NUL]);
    assert dst[..n + |s|] == d + s;
  }

  /** push_front: `src` comes before what `dst` holds, or nothing changes if it does not fit. */
  method PushFront(dst: array<char>, src: string, ghost d: string) returns (ok: bool)
    requires dst.Length == MAX_PATH && Holds(dst[..], 0, d) && NUL !in src && |d| + |src| != MAX_PATH
    modifies dst
    ensures ok <==> |d| + |src| <= MAX_PATH
    ensures if ok then Holds(dst[..], 0, src + d) else dst[..] == old(dst[..])
  {
    var res := new char[MAX_PATH](_ => NUL);
    var n := StrLen(dst, d);
    if n + |src| > MAX_PATH {
      return false;
    }
    ghost var nuls, b := res[..], dst[..];
    HeldAt(b, d);
    CopyTo(res, 0, src);
    CopyTo(res, |src|, dst[..n]);
    Joined(nuls, res[..], src, d);
    CopyTo(dst, 0, res[..|src| + n + 1]);
    PutFirst(b, dst[..], src + d);
    ok := true;
  }

  lemma HeldAt(b: seq<char>, d: string)
    requires Holds(b, 0, d)
    ensures |d| <= |b| && b[..|d|] == d
  {
    assert b[0..|d|] == b[..|d|];
  }

  /** Copying `src` and then `d` over a buffer of NULs. */
  lemma Joined(nuls: seq<char>, after: seq<char>, src: string, d: string)
    requires |src| + |d| < |nuls| && forall k :: 0 <= k < |nuls| ==> nuls[k] == NUL
    requires var once := nuls[..0] + src + nuls[|src|..];
             after == once[..|src|] + d + once[|src| + |d|..]
    ensures |after| == |nuls| && after[..|src| + |d| + 1] == src + d + [NUL]
  {
    var once := nuls[..0] + src + nuls[|src|..];
    assert once[..|src|] == src && once[|src| + |d|] == NUL;
    assert after[|src| + |d|] == NUL && after[..|src| + |d|] == src + d;
  }

  lemma PutFirst(before: seq<char>, after: seq<char>, s: string)
    requires NUL !in s && |s| < |before| && after == before[..0] + (s + [NUL]) + before[|s| + 1..]
    ensures Holds(after, 0, s)
  {
    assert after[0..|s|] == s && after[|s|] == NUL;
  }

  /** What follows the first component. */
  function Rest(t: string): string {
    var k := FirstSlash(t);
    if k == |t| then "" else t[k + 1..]
  }

  lemma SplitStep(t: string)
    requires t != ""
    ensures Split(t) == [t[..FirstSlash(t)]] + Split(Rest(t))
  {
    assert FirstSlash(t) == |t| ==> t[..|t|] == t;
  }

  lemma {:induction false} FirstSlashAt(t: string, k: nat)
    requires k <= |t| && '/' !in t[..k] && (k < |t| ==> t[k] == '/')
    ensures FirstSlash(t) == k
  {
    if k > 0 {
      assert t[0] == t[..k][0] && t[1..][..k - 1] == t[..k][1..];
      FirstSlashAt(t[1..], k - 1);
    }
  }

  /** The component at `start` is cut off, and the rest of the text begins behind `stop`. */
  ghost predicate Cut(before: seq<char>, after: seq<char>, start: nat, stop: nat, t: string) {
    && start <= |after| == |before| && after[..start] == before[..start]
    && Holds(after, start, t[..FirstSlash(t)]) && start + FirstSlash(t) <= stop
    && Tail(after, stop + 1, Rest(t)) && stop + 1 + |Rest(t)| <= start + |t| + 2
    && (Rest(t) != "" ==> stop + 1 + |Rest(t)| == start + |t|)
  }

  /** Where the text has no slash. */
  lemma CutAtEnd(b: seq<char>, start: nat, stop: nat, t: string)
    requires Tail(b, start, t) && '/' !in t && t != "" && stop + 1 < |b|
    requires start + |t| <= stop <= start + |t| + 1
    ensures Cut(b, b, start, stop, t)
  {
    assert t[..|t|] == t;
    FirstSlashAt(t, |t|);
  }

  lemma HeadCut(b: seq<char>, start: nat, i: nat, t: string, n: nat)
    requires Tail(b, start, t) && start <= i < start + |t| && n == i - start
    ensures Holds(b[i := NUL], start, t[..n])
  {
    var c := b[i := NUL];
    assert c[start..i] == b[start..start + |t|][..n];
    assert forall x :: x in t[..n] ==> x in t;
  }

  lemma TailCut(b: seq<char>, start: nat, i: nat, t: string, n: nat)
    requires Tail(b, start, t) && start <= i < start + |t| && n == i - start
    ensures Tail(b[i := NUL], i + 1, t[n + 1..])
  {
    var c := b[i := NUL];
    assert c[i + 1..start + |t|] == b[start..start + |t|][n + 1..];
    assert forall x :: x in t[n + 1..] ==> x in t;
  }

  /** Where the slash at index `i` becomes a NUL. */
  lemma CutAtSlash(b: seq<char>, start: nat, i: nat, t: string)
    requires Tail(b, start, t) && start <= i < start + |t| && b[i] == '/'
    requires forall k :: start <= k < i ==> b[k] != '/'
    ensures Cut(b, b[i := NUL], start, i, t)
  {
    hide Holds, FirstSlash;
    var n := i - start;
    assert forall k :: 0 <= k < |t| ==> t[k] == b[start..start + |t|][k] == b[start + k];
    FirstSlashAt(t, n);
    HeadCut(b, start, i, t, n);
    TailCut(b, start, i, t, n);
  }

  /** The characters of a text, one by one. */
  lemma TextAt(b: seq<char>, start: nat, t: string)
    requires Tail(b, start, t)
    ensures forall k :: start <= k < start + |t| ==> b[k] == t[k - start] && b[k] != NUL
    ensures forall k :: start + |t| <= k < |b| ==> b[k] == NUL
  {
    forall k | start <= k < start + |t| ensures b[k] == t[k - start] && b[k] != NUL {
      assert b[k] == b[start..start + |t|][k - start] && t[k - start] in t;
    }
  }

  /** A text that starts with one or two dots and then a NUL is just those dots. */
  lemma DotText(b: seq<char>, start: nat, t: string)
    requires Tail(b, start, t) && (t != "" ==> start + 2 < |b|)
    ensures t != "" && b[start] == '.' && b[start + 1] == NUL ==> t == "."
    ensures t != "" && b[start] == '.' && b[start + 1] == '.' && b[start + 2] == NUL ==> t == ".."
    ensures start < |b| && (b[start] == NUL <==> t == "")
  {
    TextAt(b, start, t);
  }

  lemma NoSlash(b: seq<char>, start: nat, t: string)
    requires Tail(b, start, t) && forall k :: start <= k < start + |t| ==> b[k] != '/'
    ensures '/' !in t
  {
    TextAt(b, start, t);
    forall i | 0 <= i < |t| ensures t[i] != '/' {
      assert b[start + i] == t[i];
    }
  }

  /** get_next_path: cut off the next component in place. */
  method GetNextPath(start: nat, path: array<char>, ghost t: string) returns (r: Option<nat>, start': nat)
    requires path.Length == MAX_PATH && Tail(path[..], start, t) && (t != "" ==> start + |t| + 2 < MAX_PATH)
    modifies path
    ensures t == "" ==> r == None && path[..] == old(path[..])
    ensures t != "" ==> r == Some(start) && Cut(old(path[..]), path[..], start, start', t)
  {
    hide Cut, Tail;
    ghost var b := path[..];
    TextAt(b, start, t);
    DotText(b, start, t);
    start' := start;
    if path[start] == '.' && path[start + 1] == NUL {
      CutAtEnd(b, start, start + 1, t);
      return Some(start), start + 1;
    }
    if path[start] == '.' && path[start + 1] == '.' && path[start + 2] == NUL {
      CutAtEnd(b, start, start + 2, t);
      return Some(start), start + 2;
    }
    var i := start;
    while i < MAX_PATH
      invariant start <= i <= MAX_PATH && path[..] == b
      invariant forall k :: start <= k < i ==> path[k] != '/'
    {
      if path[i] == '/' {
        CutAtSlash(b, start, i, t);
        path[i] := NUL;
        assert path[..] == b[i := NUL];
        return Some(start), i;
      }
      i := i + 1;
    }
    i := start;
    if path[i] == NUL {
      return None, start;
    }
    while path[i] != NUL
      invariant start <= i <= start + |t| && path[..] == b
      invariant forall k :: start <= k < i ==> path[k] != NUL
      decreases start + |t| - i
    {
      i := i + 1;
    }
    assert i == start + |t|;
    NoSlash(b, start, t);
    CutAtEnd(b, start, i + 1, t);
    return Some(start), i + 1;
  }
}
