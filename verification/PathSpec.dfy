// Path names as values: splitting at slashes, the stack of names that "." and ".." act on,
// and putting the names together again.
module PathSpec {
  /** The components of a path as get_next_path finds them: a trailing slash adds none. */
  function Split(s: string): seq<string> {
    if s == "" then []
    else
      var k := FirstSlash(s);
      if k == |s| then [s] else [s[..k]] + Split(s[k + 1..])
  }

  function FirstSlash(s: string): (k: nat)
    ensures k <= |s| && '/' !in s[..k] && (k < |s| ==> s[k] == '/')
  {
    if s == "" || s[0] == '/' then 0 else 1 + FirstSlash(s[1..])
  }

  function Join(names: seq<string>): string {
    if names == [] then ""
    else if |names| == 1 then names[0]
    else names[0] + "/" + Join(names[1..])
  }

  /** What one component does to the stack of names. */
  function Step(stack: seq<string>, c: string): seq<string> {
    if c == "." then stack
    else if c == ".." then (if stack == [] then [] else stack[..|stack| - 1])
    else stack + [c]
  }

  function Fold(cs: seq<string>): seq<string> {
    if cs == [] then [] else Step(Fold(cs[..|cs| - 1]), cs[|cs| - 1])
  }

  function Show(stack: seq<string>): string {
    if Join(stack) == "" then "/" else Join(stack)
  }

  /** What krealpath makes of a path that starts at the root. */
  function RealPath(full: string): string {
    Show(Fold(Split(full)))
  }

  /** The absolute path that the components below the root name. */
  function Resolved(cs: seq<string>): string {
    "/" + Join(Fold(cs))
  }

  // ----- the root marker -----

  /** Somewhere ".." is applied when no name is left below the root. */
  ghost predicate Escapes(cs: seq<string>) {
    exists k :: 0 <= k < |cs| && cs[k] == ".." && Fold(cs[..k]) == []
  }

  function Ups(cs: seq<string>): nat {
    if cs == [] then 0 else Ups(cs[..|cs| - 1]) + if cs[|cs| - 1] == ".." then 1 else 0
  }

  function Names(cs: seq<string>): nat {
    if cs == [] then 0
    else Names(cs[..|cs| - 1]) + if cs[|cs| - 1] == "." || cs[|cs| - 1] == ".." then 0 else 1
  }

  lemma EscapesSooner(cs: seq<string>)
    requires cs != []
    ensures var n := |cs| - 1;
            Escapes(cs) <==> Escapes(cs[..n]) || (cs[n] == ".." && Fold(cs[..n]) == [])
  {
    var n := |cs| - 1;
    if Escapes(cs[..n]) {
      var k :| 0 <= k < n && cs[..n][k] == ".." && Fold(cs[..n][..k]) == [];
      assert cs[..n][..k] == cs[..k];
    }
    if Escapes(cs) {
      var k :| 0 <= k < |cs| && cs[k] == ".." && Fold(cs[..k]) == [];
      if k < n {
        assert cs[..n][..k] == cs[..k] && cs[..n][k] == cs[k];
      }
    }
  }

  /** A path escapes exactly when some prefix has more ".." than names. */
  lemma {:induction false} EscapesIff(cs: seq<string>)
    ensures Escapes(cs) <==> exists k :: 0 <= k <= |cs| && Ups(cs[..k]) > Names(cs[..k])
    ensures !Escapes(cs) ==> |Fold(cs)| == Names(cs) - Ups(cs)
  {
    if cs != [] {
      var n := |cs| - 1;
      EscapesIff(cs[..n]);
      EscapesSooner(cs);
      assert cs[..|cs|] == cs;
      if Escapes(cs[..n]) {
        var k :| 0 <= k <= n && Ups(cs[..n][..k]) > Names(cs[..n][..k]);
        assert cs[..n][..k] == cs[..k];
      }
      if k :| 0 <= k <= n && Ups(cs[..k]) > Names(cs[..k]) {
        assert cs[..n][..k] == cs[..k];
      }
    }
  }

  /** The root marker stays at the bottom of the stack unless the path escapes. */
  lemma {:induction false} FoldFromRoot(cs: seq<string>)
    ensures Fold([""] + cs) == if Escapes(cs) then Fold(cs) else [""] + Fold(cs)
  {
    var full := [""] + cs;
    if cs == [] {
      assert full[..0] == [];
    } else {
      var n := |cs| - 1;
      FoldFromRoot(cs[..n]);
      EscapesSooner(cs);
      assert full[..n + 1] == [""] + cs[..n] && full[n + 1] == cs[n];
    }
  }

  lemma JoinLonger(names: seq<string>)
    ensures names != [] && names != [""] ==> Join(names) != ""
  {
  }

  lemma JoinCons(names: seq<string>)
    ensures Join([""] + names) == if names == [] then "" else "/" + Join(names)
  {
    assert names != [] ==> ([""] + names)[1..] == names;
  }

  lemma SplitRooted(t: string)
    ensures Split("/" + t) == [""] + Split(t)
  {
    assert ("/" + t)[..0] == "" && ("/" + t)[1..] == t;
  }

  /** krealpath gives the absolute path of the names that are left, exactly unless the path
      escapes and still leaves a name. */
  lemma RealPathExactIff(t: string)
    ensures var cs := Split(t);
            RealPath("/" + t) == Resolved(cs) <==> !(Escapes(cs) && Fold(cs) != [] && Fold(cs) != [""])
  {
    var cs := Split(t);
    SplitRooted(t);
    FoldFromRoot(cs);
    JoinCons(Fold(cs));
    JoinLonger(Fold(cs));
  }

  lemma FoldPush(cs: seq<string>, c: string)
    ensures Fold(cs + [c]) == Step(Fold(cs), c)
  {
    assert (cs + [c])[..|cs|] == cs;
  }

  lemma SplitAtSlash(a: string, t: string)
    requires '/' !in a
    ensures Split(a + "/" + t) == [a] + Split(t)
    ensures Split(a) == if a == "" then [] else [a]
  {
    var s := a + "/" + t;
    NoSlashBefore(a, "/" + t);
    NoSlashBefore(a, "");
    assert s == a + ("/" + t) && a + "" == a;
    assert s[..|a|] == a && s[|a| + 1..] == t;
  }

  lemma {:induction false} NoSlashBefore(a: string, b: string)
    requires '/' !in a && (b == "" || b[0] == '/')
    ensures FirstSlash(a + b) == |a|
  {
    if a != "" {
      assert (a + b)[1..] == a[1..] + b;
      NoSlashBefore(a[1..], b);
    }
  }

  /** "/../a" loses its root: the result is the relative path "a". */
  lemma RootCanBeLost()
    ensures RealPath("/" + "../a") == "a" && Resolved(Split("../a")) == "/a"
  {
    hide Fold, Split;
    var cs := ["..", "a"];
    assert "../a" == ".." + "/" + "a";
    SplitAtSlash("..", "a");
    SplitAtSlash("a", "");
    SplitRooted("../a");
    assert Split("../a") == cs;
    FoldEmpty();
    FoldPush([], "..");
    FoldPush([".."], "a");
    assert [] + [".."] == [".."] && [".."] + ["a"] == cs;
    assert cs[..0] == [] && cs[0] == "..";
    FoldFromRoot(cs);
  }

  lemma FoldEmpty()
    ensures Fold([]) == []
  {
  }

  // ----- results are normal -----

  lemma {:induction false} FoldKeeps(cs: seq<string>, c: string)
    requires c in Fold(cs)
    ensures c in cs && c != "." && c != ".."
  {
    var n := |cs| - 1;
    if c in Fold(cs[..n]) {
      FoldKeeps(cs[..n], c);
    }
  }

  ghost predicate Plain(names: seq<string>) {
    forall c :: c in names ==> c != "" && c != "." && c != ".." && '/' !in c
  }

  lemma {:induction false} SplitHasNoSlash(s: string, c: string)
    requires c in Split(s)
    ensures '/' !in c
    decreases |s|
  {
    var k := FirstSlash(s);
    if k == |s| {
      assert s[..k] == s;
    } else if c != s[..k] {
      SplitHasNoSlash(s[k + 1..], c);
    }
  }

  /** Splitting is the inverse of joining plain names. */
  lemma {:induction false} SplitJoin(names: seq<string>)
    requires Plain(names)
    ensures Split(Join(names)) == names
  {
    hide Split;
    if names == [] {
      SplitAtSlash("", "");
    } else {
      assert names[0] in names;
      if |names| == 1 {
        SplitAtSlash(names[0], "");
      } else {
        assert forall c :: c in names[1..] ==> c in names;
        SplitJoin(names[1..]);
        SplitAtSlash(names[0], Join(names[1..]));
        assert names == [names[0]] + names[1..];
      }
    }
  }

  lemma {:induction false} FoldOfPlain(names: seq<string>)
    requires Plain(names)
    ensures Fold(names) == names && !Escapes(names)
  {
    if names != [] {
      var n := |names| - 1;
      assert names[n] in names && forall c :: c in names[..n] ==> c in names;
      FoldOfPlain(names[..n]);
      EscapesSooner(names);
      assert names == names[..n] + [names[n]];
    }
  }

  /** The names that are left of a path without empty components. */
  lemma NamesArePlain(t: string)
    requires "" !in Split(t)
    ensures Plain(Fold(Split(t)))
  {
    forall c | c in Fold(Split(t)) ensures c != "" && c != "." && c != ".." && '/' !in c {
      FoldKeeps(Split(t), c);
      SplitHasNoSlash(t, c);
    }
  }

  /** Both outcomes for an absolute path: with its root, or without. */
  lemma RealPathRooted(t: string)
    requires "" !in Split(t)
    ensures var names := Fold(Split(t));
            RealPath("/" + t) == if Escapes(Split(t)) && names != [] then Join(names) else "/" + Join(names)
  {
    NamesArePlain(t);
    var names := Fold(Split(t));
    assert names != [] ==> names[0] in names;
    SplitRooted(t);
    FoldFromRoot(Split(t));
    JoinCons(names);
    JoinLonger(names);
  }

  lemma SplitNothing()
    ensures Split("") == [] && Join([]) == ""
  {
  }

  /** Behind plain names a path that does not escape acts as on its own. */
  lemma {:induction false} FoldBehind(names: seq<string>, cs: seq<string>)
    requires Plain(names) && !Escapes(cs)
    ensures Fold(names + cs) == names + Fold(cs) && !Escapes(names + cs)
  {
    hide Escapes;
    if cs == [] {
      FoldOfPlain(names);
      assert names + cs == names && Fold(cs) == [] && names + [] == names;
    } else {
      var n := |cs| - 1;
      EscapesSooner(cs);
      FoldBehind(names, cs[..n]);
      var all := names + cs;
      assert all[..|all| - 1] == names + cs[..n] && all[|all| - 1] == cs[n];
      EscapesSooner(all);
    }
  }

  lemma {:induction false} SplitBehind(names: seq<string>, t: string)
    requires Plain(names)
    ensures names != [] ==> Split(Join(names) + "/" + t) == names + Split(t)
  {
    hide Split;
    if names != [] {
      assert names[0] in names;
      SplitAtSlash(names[0], t);
      if |names| > 1 {
        assert forall c :: c in names[1..] ==> c in names;
        SplitBehind(names[1..], t);
        SplitAtSlash(names[0], Join(names[1..]) + "/" + t);
        assert Join(names) + "/" + t == names[0] + "/" + (Join(names[1..]) + "/" + t);
        assert names + Split(t) == [names[0]] + (names[1..] + Split(t));
      } else {
        assert names == [names[0]];
      }
    }
  }

  /** "../a/b" escapes and leaves two names. */
  lemma EscapeOfTwo()
    ensures "" !in Split("../a/b") && Fold(Split("../a/b")) == ["a", "b"] && Escapes(Split("../a/b"))
    ensures Resolved(Split("../a/b")) == "/a/b"
  {
    hide Fold, Split;
    var cs := ["..", "a", "b"];
    assert "../a/b" == ".." + "/" + "a/b" && "a/b" == "a" + "/" + "b";
    SplitAtSlash("..", "a/b");
    SplitAtSlash("a", "b");
    SplitAtSlash("b", "");
    assert Split("../a/b") == cs;
    FoldEmpty();
    FoldPush([], "..");
    FoldPush([".."], "a");
    FoldPush(["..", "a"], "b");
    assert [] + [".."] == [".."] && [".."] + ["a"] == ["..", "a"] && ["..", "a"] + ["b"] == cs;
    assert cs[..0] == [] && cs[0] == "..";
    assert Join(["a", "b"]) == "a/b" by {
      assert ["a", "b"][1..] == ["b"];
    }
  }

  /** On a path without empty components that does not escape, the result is the absolute
      path of plain names, and resolving it again changes nothing. */
  lemma RealPathIsNormal(t: string)
    requires "" !in Split(t) && !Escapes(Split(t))
    ensures var names := Fold(Split(t));
            && Plain(names) && RealPath("/" + t) == "/" + Join(names)
            && Split(RealPath("/" + t)) == [""] + names
            && RealPath(RealPath("/" + t)) == RealPath("/" + t)
  {
    var names := Fold(Split(t));
    NamesArePlain(t);
    RealPathExactIff(t);
    SplitRooted(Join(names));
    SplitJoin(names);
    FoldOfPlain(names);
    RealPathExactIff(Join(names));
  }

  /** Doubled slashes are kept as names: "/a//.." resolves to "/a", as if the empty component
      were a directory. */
  lemma EmptyComponentsCount()
    ensures Split("a//..") == ["a", "", ".."] && RealPath("/" + "a//..") == "/a"
  {
    hide Fold, Split;
    var cs := ["a", "", ".."];
    assert "a//.." == "a" + "/" + "/.." && "/.." == "" + "/" + "..";
    SplitAtSlash("a", "/..");
    SplitAtSlash("", "..");
    SplitAtSlash("..", "");
    assert Split("a//..") == cs;
    FoldEmpty();
    FoldPush([], "a");
    FoldPush(["a"], "");
    FoldPush(["a", ""], "..");
    assert [] + ["a"] == ["a"] && ["a"] + [""] == ["a", ""] && ["a", ""] + [".."] == cs;
    assert Fold(cs) == ["a"];
    assert !Escapes(cs) by {
      assert cs[..2] == ["a", ""];
    }
    RealPathExactIff("a//..");
  }

  // ----- empty components -----

  /** The components that a path is meant to have: without the empty ones between slashes. */
  function Solid(cs: seq<string>): seq<string> {
    if cs == [] then []
    else Solid(cs[..|cs| - 1]) + if cs[|cs| - 1] == "" then [] else [cs[|cs| - 1]]
  }

  function Empties(cs: seq<string>): nat {
    if cs == [] then 0 else Empties(cs[..|cs| - 1]) + if cs[|cs| - 1] == "" then 1 else 0
  }

  lemma {:induction false} SolidHas(cs: seq<string>, c: string)
    ensures c in Solid(cs) <==> c in cs && c != ""
    ensures Empties(cs) == 0 <==> "" !in cs
    ensures "" !in cs ==> Solid(cs) == cs
  {
    if cs != [] {
      SolidHas(cs[..|cs| - 1], c);
      assert cs == cs[..|cs| - 1] + [cs[|cs| - 1]];
    }
  }

  /** Empty components make the stack deeper, each by one. */
  lemma {:induction false} EmptiesStack(cs: seq<string>)
    requires !Escapes(Solid(cs))
    ensures !Escapes(cs) && |Fold(cs)| == |Fold(Solid(cs))| + Empties(cs)
  {
    hide Escapes;
    if cs == [] {
      NothingEscapes();
    } else {
      var less, c := cs[..|cs| - 1], cs[|cs| - 1];
      EscapesSooner(cs);
      if c == "" {
        assert Solid(cs) == Solid(less);
      } else {
        assert Solid(cs) == Solid(less) + [c];
        assert Solid(cs)[..|Solid(cs)| - 1] == Solid(less);
        EscapesSooner(Solid(cs));
        FoldPush(Solid(less), c);
      }
      EmptiesStack(less);
    }
  }

  lemma NothingEscapes()
    ensures !Escapes([])
  {
  }

  function Slashes(s: string): nat {
    if s == "" then 0 else Slashes(s[..|s| - 1]) + if s[|s| - 1] == '/' then 1 else 0
  }

  lemma {:induction false} SlashesOf(a: string, b: string)
    ensures Slashes(a + b) == Slashes(a) + Slashes(b)
    ensures '/' !in a ==> Slashes(a) == 0
    decreases |a| + |b|
  {
    if b != "" {
      SlashesOf(a, b[..|b| - 1]);
      assert (a + b)[..|a + b| - 1] == a + b[..|b| - 1];
    } else if a != "" {
      SlashesOf(a[..|a| - 1], "");
      assert a + "" == a;
    }
  }

  /** Joining puts a slash between any two names. */
  lemma {:induction false} JoinSlashes(names: seq<string>)
    requires names != [] && forall c :: c in names ==> '/' !in c
    ensures Slashes(Join(names)) == |names| - 1
  {
    assert names[0] in names;
    SlashesOf(names[0], "");
    if |names| > 1 {
      var rest := Join(names[1..]);
      assert forall c :: c in names[1..] ==> c in names;
      JoinSlashes(names[1..]);
      SlashesOf(names[0], "/");
      SlashesOf(names[0] + "/", rest);
      assert "/"[..0] == "";
    }
  }

  /** If the path does not escape when its empty components are left out, krealpath gives the
      path of the names that are then left exactly if it has no empty component, or if one that
      no ".." took away is all that is left: "/" again. */
  lemma RealPathSolidIff(t: string)
    requires !Escapes(Solid(Split(t)))
    ensures RealPath("/" + t) == "/" + Join(Fold(Solid(Split(t))))
            <==> "" !in Split(t) || Fold(Split(t)) == [""]
  {
    var cs := Split(t);
    var all, solid := Fold(cs), Fold(Solid(cs));
    EmptiesStack(cs);
    RealPathExactIff(t);
    SolidHas(cs, "");
    forall c | c in all || c in solid ensures '/' !in c {
      if c in all {
        FoldKeeps(cs, c);
      } else {
        FoldKeeps(Solid(cs), c);
        SolidHas(cs, c);
      }
      SplitHasNoSlash(t, c);
    }
    if "" in cs && all != [""] {
      JoinLonger(all);
      JoinSlashes(all);
      if solid != [] {
        JoinSlashes(solid);
      }
    }
    assert ("/" + Join(all))[1..] == Join(all) && ("/" + Join(solid))[1..] == Join(solid);
  }

  // ----- lengths -----

  /** The characters of the names and one more for each. */
  function Weight(names: seq<string>): nat {
    if names == [] then 0 else Weight(names[..|names| - 1]) + |names[|names| - 1]| + 1
  }

  lemma {:induction false} SplitWeight(s: string)
    ensures Weight(Split(s)) <= |s| + 1 && |Split(s)| <= |s|
    decreases |s|
  {
    if s != "" {
      var k := FirstSlash(s);
      if k == |s| {
        assert [s][..0] == [];
      } else {
        SplitWeight(s[k + 1..]);
        WeightCons(s[..k], Split(s[k + 1..]));
      }
    }
  }

  lemma {:induction false} WeightCons(c: string, names: seq<string>)
    ensures Weight([c] + names) == |c| + 1 + Weight(names)
  {
    if names == [] {
      assert [c] + names == [c] && [c][..0] == [];
    } else {
      var n := |names| - 1;
      WeightCons(c, names[..n]);
      assert ([c] + names)[..n + 1] == [c] + names[..n];
    }
  }

  lemma {:induction false} FoldWeight(cs: seq<string>)
    ensures Weight(Fold(cs)) <= Weight(cs) && |Fold(cs)| <= |cs|
  {
    if cs != [] {
      FoldWeight(cs[..|cs| - 1]);
    }
  }

  /** The names so far, each followed by a slash. */
  function Slashed(names: seq<string>): string {
    if names == [] then "" else Slashed(names[..|names| - 1]) + names[|names| - 1] + "/"
  }

  lemma {:induction false} SlashedIsJoin(names: seq<string>)
    requires names != []
    ensures Slashed(names) == Join(names) + "/"
  {
    hide Slashed;
    SlashedCons(names[0], names[1..]);
    assert names == [names[0]] + names[1..];
    if |names| == 1 {
      NothingSlashed();
    } else {
      SlashedIsJoin(names[1..]);
    }
  }

  lemma NothingSlashed()
    ensures Slashed([]) == ""
  {
  }

  lemma JoinSlashed(names: seq<string>)
    requires names != []
    ensures Join(names) == Slashed(names[..|names| - 1]) + names[|names| - 1]
    ensures |Slashed(names[..|names| - 1])| == Weight(names[..|names| - 1])
  {
    hide Join, Weight;
    var a := Slashed(names[..|names| - 1]) + names[|names| - 1];
    SlashedWeight(names[..|names| - 1]);
    SlashedIsJoin(names);
    assert (a + "/")[..|a|] == a && (Join(names) + "/")[..|Join(names)|] == Join(names);
  }

  lemma {:induction false} SlashedWeight(names: seq<string>)
    ensures |Slashed(names)| == Weight(names)
  {
    if names != [] {
      SlashedWeight(names[..|names| - 1]);
    }
  }

  lemma {:induction false} SlashedCons(c: string, names: seq<string>)
    ensures Slashed([c] + names) == c + "/" + Slashed(names)
  {
    if names == [] {
      assert [c] + names == [c] && [c][..0] == [];
    } else {
      var n := |names| - 1;
      SlashedCons(c, names[..n]);
      assert ([c] + names)[..n + 1] == [c] + names[..n];
      var rest, last := Slashed(names[..n]), names[n];
      assert c + "/" + rest + last + "/" == c + "/" + (rest + last + "/");
    }
  }

  /** Resolving a path makes it no longer, but for "/". */
  lemma RealPathFits(full: string)
    ensures |RealPath(full)| <= if full == "" then 1 else |full|
  {
    var names := Fold(Split(full));
    SplitWeight(full);
    FoldWeight(Split(full));
    if names != [] {
      JoinSlashed(names);
    }
  }
}
