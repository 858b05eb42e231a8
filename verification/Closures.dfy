/** Least closed sets, shared by the two reachability computations. */
module Closures {
  ghost predicate Closed<T(!new)>(next: T -> set<T>, s: set<T>) {
    forall x, y :: x in s && y in next(x) ==> y in s
  }

  /** `r` is the least set that contains the seeds and is closed under `next`. */
  ghost predicate IsClosure<T(!new)>(next: T -> set<T>, seeds: set<T>, r: set<T>) {
    seeds <= r && Closed(next, r) && forall s :: seeds <= s && Closed(next, s) ==> r <= s
  }

  /** There is only one closure, so no visiting order can matter; and it grows with the seeds. */
  lemma ClosureMonotone<T(!new)>(next: T -> set<T>, seeds: set<T>, more: set<T>, r: set<T>, r': set<T>)
    requires IsClosure(next, seeds, r) && IsClosure(next, more, r')
    ensures seeds <= more ==> r <= r'
    ensures seeds == more ==> r == r'
  {
  }

  lemma ClosureIdempotent<T(!new)>(next: T -> set<T>, seeds: set<T>, r: set<T>)
    requires IsClosure(next, seeds, r)
    ensures IsClosure(next, r, r)
  {
  }

  lemma ClosureOfUnion<T(!new)>(next: T -> set<T>, a: set<T>, b: set<T>, ra: set<T>, rb: set<T>)
    requires IsClosure(next, a, ra) && IsClosure(next, b, rb)
    ensures IsClosure(next, a + b, ra + rb)
  {
    forall s | a + b <= s && Closed(next, s)
      ensures ra + rb <= s
    {
      assert a <= s && b <= s;
    }
  }

  /** A walk from a seed to `y`. */
  ghost predicate Walk<T(!new)>(next: T -> set<T>, seeds: set<T>, path: seq<T>, y: T) {
    |path| > 0 && path[0] in seeds && path[|path| - 1] == y &&
    forall i | 0 < i < |path| :: path[i] in next(path[i - 1])
  }

  lemma {:induction false} WalkStaysInside<T(!new)>(next: T -> set<T>, seeds: set<T>, path: seq<T>, y: T, r: set<T>)
    requires Walk(next, seeds, path, y) && seeds <= r && Closed(next, r)
    ensures y in r
    decreases |path|
  {
    if |path| > 1 {
      var front := path[..|path| - 1];
      WalkStaysInside(next, seeds, front, front[|front| - 1], r);
      assert path[|path| - 1] in next(path[|path| - 2]);
    }
  }

  /** The closure is reachability: its members are exactly the ends of walks from the seeds. */
  lemma ClosureIsReachability<T(!new)>(next: T -> set<T>, seeds: set<T>, r: set<T>, y: T)
    requires IsClosure(next, seeds, r)
    ensures y in r <==> exists path :: Walk(next, seeds, path, y)
  {
    forall path | Walk(next, seeds, path, y)
      ensures y in r
    {
      WalkStaysInside(next, seeds, path, y, r);
    }
    var reached := set x | x in r && exists path :: Walk(next, seeds, path, x);
    forall x | x in seeds
      ensures x in reached
    {
      assert Walk(next, seeds, [x], x);
    }
    forall x, z | x in reached && z in next(x)
      ensures z in reached
    {
      var path :| Walk(next, seeds, path, x);
      assert Walk(next, seeds, path + [z], z);
    }
    assert seeds <= reached && Closed(next, reached);
    assert r <= reached;
  }
}
