// Sequences without repetition, and how many elements they have.
module Counting {

  ghost predicate NoDup<T>(s: seq<T>) {
    forall i, j :: 0 <= i < j < |s| ==> s[i] != s[j]
  }

  ghost function Elements<T>(s: seq<T>): set<T> {
    set i | 0 <= i < |s| :: s[i]
  }

  lemma ElementsHave<T>(s: seq<T>, x: T)
    ensures x in Elements(s) <==> x in s
  {
  }

  lemma {:induction false} ElementCount<T>(s: seq<T>)
    ensures |Elements(s)| <= |s|
    ensures NoDup(s) ==> |Elements(s)| == |s|
  {
    if s != [] {
      var m := |s| - 1;
      ElementCount(s[..m]);
      assert Elements(s) == Elements(s[..m]) + {s[m]} by {
        assert forall i :: 0 <= i < m ==> s[..m][i] == s[i];
      }
      if NoDup(s) {
        assert s[m] !in Elements(s[..m]);
      }
    }
  }

  lemma {:induction false} SubsetSmaller<T>(a: set<T>, b: set<T>)
    requires a <= b
    ensures |a| <= |b|
  {
    if x :| x in a {
      SubsetSmaller(a - {x}, b - {x});
    }
  }

  lemma ProperSubsetSmaller<T>(a: set<T>, b: set<T>)
    requires a < b
    ensures |a| < |b|
  {
    var x :| x in b && x !in a;
    SubsetSmaller(a, b - {x});
  }

  /** A subset with as many elements is the whole set. */
  lemma SameSizeSame<T>(a: set<T>, b: set<T>)
    requires a <= b && |a| == |b|
    ensures a == b
  {
    if x :| x in b && x !in a {
      SubsetSmaller(a, b - {x});
    }
  }

  /** Different elements of a set are no more than the set has. */
  lemma DistinctFit<T>(s: seq<T>, all: set<T>)
    requires NoDup(s) && forall x :: x in s ==> x in all
    ensures |s| <= |all|
  {
    ElementCount(s);
    SubsetSmaller(Elements(s), all);
  }

  /** The numbers from `lo` on. */
  function Interval(lo: nat, n: nat): (r: set<nat>)
    ensures forall b :: b in r <==> lo <= b < lo + n
    ensures |r| == n
  {
    if n == 0 then {} else Interval(lo, n - 1) + {lo + n - 1}
  }
}
