// What the replacement policy of lru.c does to whole traces of page references.
// Only page numbers matter here: a queue is the sequence of cached pages, front first.
module LruTrace {
  import opened Counting

  function Without(q: seq<nat>, p: nat): (r: seq<nat>)
    ensures |r| <= |q|
    ensures forall x :: x in r <==> x in q && x != p
  {
    if q == [] then []
    else if q[0] == p then Without(q[1..], p)
    else [q[0]] + Without(q[1..], p)
  }

  lemma {:induction false} WithoutDistinct(q: seq<nat>, p: nat)
    requires NoDup(q)
    ensures NoDup(Without(q, p))
    ensures |Without(q, p)| == if p in q then |q| - 1 else |q|
    ensures p !in q ==> Without(q, p) == q
  {
    if q != [] {
      NoDupTail(q);
      WithoutDistinct(q[1..], p);
      if q[0] != p {
        NoDupFront(q[0], Without(q[1..], p));
      }
    }
  }

  lemma NoDupTail(q: seq<nat>)
    requires NoDup(q) && q != []
    ensures NoDup(q[1..]) && q[0] !in q[1..] && forall x :: x in q <==> x == q[0] || x in q[1..]
  {
    assert q == [q[0]] + q[1..];
  }

  lemma NoDupFront(x: nat, w: seq<nat>)
    requires NoDup(w) && x !in w
    ensures NoDup([x] + w)
  {
  }

  function Cut(q: seq<nat>, n: nat): seq<nat> {
    if |q| <= n then q else q[..n]
  }

  /** One reference to `p` with `n` frames: `p` becomes the front, and a page is
      dropped from the rear when there is no frame left for it. */
  function Touch(q: seq<nat>, n: nat, p: nat): seq<nat>
    requires n >= 1
  {
    [p] + Cut(Without(q, p), n - 1)
  }

  /** The queue after a whole trace of references, starting with an empty cache. */
  function QueueAfter(t: seq<nat>, n: nat): seq<nat>
    requires n >= 1
  {
    if t == [] then [] else Touch(QueueAfter(t[..|t| - 1], n), n, t[|t| - 1])
  }

  /** The distinct pages of a trace, most recently used first. */
  function Recency(t: seq<nat>): seq<nat> {
    if t == [] then [] else [t[|t| - 1]] + Without(Recency(t[..|t| - 1]), t[|t| - 1])
  }

  /** The distinct pages referenced since the last reference to `p`. */
  function Since(t: seq<nat>, p: nat): (s: set<nat>)
    ensures p !in s
    ensures s <= Elements(t)
  {
    if t == [] || t[|t| - 1] == p then {} else Since(t[..|t| - 1], p) + {t[|t| - 1]}
  }

  lemma {:induction false} RecencyIsDistinct(t: seq<nat>)
    ensures NoDup(Recency(t))
    ensures forall x :: x in Recency(t) <==> x in t
  {
    if t != [] {
      var u, p := t[..|t| - 1], t[|t| - 1];
      RecencyIsDistinct(u);
      WithoutDistinct(Recency(u), p);
      assert t == u + [p];
    }
  }

  lemma {:induction false} WithoutAppend(a: seq<nat>, b: seq<nat>, p: nat)
    ensures Without(a + b, p) == Without(a, p) + Without(b, p)
  {
    if a == [] {
      assert a + b == b;
    } else {
      WithoutAppend(a[1..], b, p);
      assert (a + b)[0] == a[0] && (a + b)[1..] == a[1..] + b;
      if a[0] != p {
        assert [a[0]] + (Without(a[1..], p) + Without(b, p)) == ([a[0]] + Without(a[1..], p)) + Without(b, p);
      }
    }
  }

  /** Removing a page and keeping `n - 1` others does not look past the first `n`. */
  lemma CutBeforeWithout(q: seq<nat>, n: nat, p: nat)
    requires n >= 1 && NoDup(q)
    ensures Cut(Without(Cut(q, n), p), n - 1) == Cut(Without(q, p), n - 1)
  {
    if |q| > n {
      var a, b := q[..n], q[n..];
      assert q == a + b;
      WithoutAppend(a, b, p);
      WithoutDistinct(a, p);
    }
  }

  /** Touching a cached page moves it to the front and keeps the others in order. */
  lemma TouchOfCached(q: seq<nat>, n: nat, i: nat)
    requires NoDup(q) && i < |q| <= n
    ensures Touch(q, n, q[i]) == [q[i]] + q[..i] + q[i + 1..]
  {
    hide NoDup, Without;
    var a, z, p := q[..i], q[i + 1..], q[i];
    assert q == a + ([p] + z);
    NoDupAround(q, i);
    WithoutAppend(a, [p] + z, p);
    WithoutFront(p, z);
    WithoutDistinct(a, p);
    WithoutDistinct(z, p);
    assert |a + z| == |q| - 1;
    assert [p] + (a + z) == [p] + a + z;
  }

  lemma NoDupAround(q: seq<nat>, i: nat)
    requires NoDup(q) && i < |q|
    ensures NoDup(q[..i]) && NoDup(q[i + 1..]) && q[i] !in q[..i] && q[i] !in q[i + 1..]
  {
  }

  lemma WithoutFront(p: nat, z: seq<nat>)
    ensures Without([p] + z, p) == Without(z, p)
  {
    assert ([p] + z)[1..] == z;
  }

  /** The same references, made one after the other on a queue that is not empty. */
  function QueueFrom(q: seq<nat>, n: nat, t: seq<nat>): seq<nat>
    requires n >= 1
    decreases |t|
  {
    if t == [] then q else QueueFrom(Touch(q, n, t[0]), n, t[1..])
  }

  lemma {:induction false} QueueFromAfter(t: seq<nat>, n: nat, u: seq<nat>)
    requires n >= 1
    ensures QueueFrom(QueueAfter(t, n), n, u) == QueueAfter(t + u, n)
    decreases |u|
  {
    hide Touch;
    if u == [] {
      assert t + u == t;
    } else {
      var v := t + [u[0]];
      assert v[..|v| - 1] == t && v[|v| - 1] == u[0];
      QueueFromAfter(v, n, u[1..]);
      assert v + u[1..] == t + u;
    }
  }

  /** The queue is exactly the `n` most recently used distinct pages of the trace. */
  lemma {:induction false} QueueIsRecencyCut(t: seq<nat>, n: nat)
    requires n >= 1
    ensures QueueAfter(t, n) == Cut(Recency(t), n)
  {
    if t != [] {
      var u, p := t[..|t| - 1], t[|t| - 1];
      QueueIsRecencyCut(u, n);
      RecencyIsDistinct(u);
      CutBeforeWithout(Recency(u), n, p);
    }
  }

  /** Where a page stands in the recency order: after every page used since. */
  lemma {:induction false} RecencyRank(t: seq<nat>, p: nat) returns (i: nat)
    requires p in t
    ensures i < |Recency(t)| && Recency(t)[i] == p
    ensures Elements(Recency(t)[..i]) == Since(t, p)
  {
    var u, l := t[..|t| - 1], t[|t| - 1];
    assert t == u + [l];
    if l == p {
      i := 0;
    } else {
      var j := RecencyRank(u, p);
      var r := Recency(u);
      var a, b := r[..j], r[j..];
      assert r == a + b && b[0] == p;
      WithoutAppend(a, b, l);
      i := 1 + |Without(a, l)|;
      assert Recency(t) == [l] + Without(a, l) + Without(b, l);
      assert Recency(t)[..i] == [l] + Without(a, l);
      forall x ensures x in Elements([l] + Without(a, l)) <==> x in Since(t, p) {
        assert x in Elements(a) <==> x in a;
        assert x in [l] + Without(a, l) <==> x == l || (x in a && x != l);
      }
    }
  }

  /** A page is cached after a trace exactly when it was referenced and fewer than `n`
      distinct other pages were referenced since: it is evicted no earlier and no later. */
  lemma CachedIffRecentlyUsed(t: seq<nat>, n: nat, p: nat)
    requires n >= 1
    ensures p in QueueAfter(t, n) <==> p in t && |Since(t, p)| < n
  {
    QueueIsRecencyCut(t, n);
    RecencyIsDistinct(t);
    if p in t {
      var i := RecencyRank(t, p);
      ElementCount(Recency(t)[..i]);
      assert Recency(t)[i] == p;
    }
  }

  /** LRU has the stack property: fewer frames hold a prefix of what more frames hold. */
  lemma Inclusion(t: seq<nat>, m: nat, n: nat)
    requires 1 <= m <= n
    ensures QueueAfter(t, m) <= QueueAfter(t, n)
    ensures |QueueAfter(t, n)| <= n && NoDup(QueueAfter(t, n))
  {
    QueueIsRecencyCut(t, m);
    QueueIsRecencyCut(t, n);
    RecencyIsDistinct(t);
  }

  function Misses(t: seq<nat>, n: nat): nat
    requires n >= 1
  {
    if t == [] then 0
    else
      Misses(t[..|t| - 1], n)
      + if t[|t| - 1] in QueueAfter(t[..|t| - 1], n) then 0 else 1
  }

  /** Every page misses when it is used first; with a frame for each nothing else does. */
  lemma {:induction false} MissesAtLeast(t: seq<nat>, n: nat)
    requires n >= 1
    ensures |Recency(t)| <= Misses(t, n) <= |t|
    ensures |Recency(t)| <= n ==> Misses(t, n) == |Recency(t)|
  {
    if t != [] {
      var u, p := t[..|t| - 1], t[|t| - 1];
      MissesAtLeast(u, n);
      RecencyIsDistinct(u);
      WithoutDistinct(Recency(u), p);
      QueueIsRecencyCut(u, n);
    }
  }

  /** Adding frames never adds misses, on any trace. */
  lemma {:induction false} MoreFramesNeverMissMore(t: seq<nat>, m: nat, n: nat)
    requires 1 <= m <= n
    ensures Misses(t, n) <= Misses(t, m)
  {
    if t != [] {
      MoreFramesNeverMissMore(t[..|t| - 1], m, n);
      Inclusion(t[..|t| - 1], m, n);
    }
  }
}
