/** Pixel coordinates, 4-neighbour adjacency and connectivity inside a set of pixels. */
module Geometry {

  /** A pixel coordinate (x, y): x is the column, y the row. */
  type Point = (int, int)

  predicate InBounds(p: Point, width: int, height: int) {
    0 <= p.0 < width && 0 <= p.1 < height
  }

  /** Column-major scan order: x is the outer loop, y the inner one. */
  predicate ScanBefore(p: Point, q: Point) {
    p.0 < q.0 || (p.0 == q.0 && p.1 < q.1)
  }

  /** Two pixels that share an edge. */
  predicate Adjacent(p: Point, q: Point) {
    || (p.0 == q.0 && (p.1 == q.1 + 1 || q.1 == p.1 + 1))
    || (p.1 == q.1 && (p.0 == q.0 + 1 || q.0 == p.0 + 1))
  }

  /** The four edge neighbours, in the order the flood fill visits them. */
  function Neighbours(p: Point): (ns: seq<Point>)
    ensures |ns| == 4
    ensures forall i :: 0 <= i < 4 ==> Adjacent(p, ns[i])
  {
    [(p.0 + 1, p.1), (p.0 - 1, p.1), (p.0, p.1 + 1), (p.0, p.1 - 1)]
  }

  /** A non-empty walk through S in which consecutive pixels share an edge. */
  ghost predicate IsPath(S: set<Point>, path: seq<Point>) {
    && |path| > 0
    && (forall i :: 0 <= i < |path| ==> path[i] in S)
    && (forall i :: 0 <= i < |path| - 1 ==> Adjacent(path[i], path[i + 1]))
  }

  /** A path inside S from p to q. */
  ghost predicate PathBetween(S: set<Point>, path: seq<Point>, p: Point, q: Point) {
    IsPath(S, path) && path[0] == p && path[|path| - 1] == q
  }

  /** q can be reached from p by edge steps that never leave S. */
  ghost predicate Connected(S: set<Point>, p: Point, q: Point) {
    exists path :: PathBetween(S, path, p, q)
  }

  lemma ConnectedRefl(S: set<Point>, p: Point)
    requires p in S
    ensures Connected(S, p, p)
  {
    assert PathBetween(S, [p], p, p);
  }

  lemma ConnectedEnds(S: set<Point>, p: Point, q: Point)
    requires Connected(S, p, q)
    ensures p in S && q in S
  {
    var path :| PathBetween(S, path, p, q);
    assert path[|path| - 1] in S;
  }

  /** A path to q extends by one edge step into S. */
  lemma ConnectedStep(S: set<Point>, p: Point, q: Point, r: Point)
    requires Connected(S, p, q) && Adjacent(q, r) && r in S
    ensures Connected(S, p, r)
  {
    var path :| PathBetween(S, path, p, q);
    var longer := path + [r];
    assert IsPath(S, longer);
    assert PathBetween(S, longer, p, r);
  }

  /** Every pixel on a path is connected to the path's start. */
  lemma PathPrefix(S: set<Point>, path: seq<Point>, i: int)
    requires IsPath(S, path) && 0 <= i < |path|
    ensures Connected(S, path[0], path[i])
  {
    var prefix := path[..i + 1];
    assert IsPath(S, prefix);
    assert PathBetween(S, prefix, path[0], path[i]);
  }

  lemma ConnectedSym(S: set<Point>, p: Point, q: Point)
    requires Connected(S, p, q)
    ensures Connected(S, q, p)
  {
    var path :| PathBetween(S, path, p, q);
    var n := |path|;
    var back := seq(n, i requires 0 <= i < n => path[n - 1 - i]);
    forall i | 0 <= i < n - 1
      ensures Adjacent(back[i], back[i + 1])
    {
      assert back[i] == path[n - 1 - i] && back[i + 1] == path[n - 2 - i];
      assert Adjacent(path[n - 2 - i], path[n - 1 - i]);
    }
    assert IsPath(S, back);
    assert PathBetween(S, back, q, p);
  }

  lemma ConnectedTrans(S: set<Point>, p: Point, q: Point, r: Point)
    requires Connected(S, p, q) && Connected(S, q, r)
    ensures Connected(S, p, r)
  {
    var first :| PathBetween(S, first, p, q);
    var second :| PathBetween(S, second, q, r);
    var joined := first + second[1..];
    forall i | 0 <= i < |joined| - 1
      ensures Adjacent(joined[i], joined[i + 1])
    {
      if i < |first| - 1 {
        assert joined[i] == first[i] && joined[i + 1] == first[i + 1];
      } else {
        var k := i - |first| + 1;
        assert joined[i] == second[k] && joined[i + 1] == second[k + 1];
      }
    }
    assert IsPath(S, joined);
    assert PathBetween(S, joined, p, r);
  }

  /** Connectivity is monotone in the set walked through. */
  lemma ConnectedMono(S: set<Point>, T: set<Point>, p: Point, q: Point)
    requires Connected(S, p, q) && S <= T
    ensures Connected(T, p, q)
  {
    var path :| PathBetween(S, path, p, q);
    assert PathBetween(T, path, p, q);
  }

  /**
   * If everything reachable from p inside S lies in T, then every path from p
   * inside S is also a path inside T.
   */
  lemma ConnectedWithin(S: set<Point>, T: set<Point>, p: Point, q: Point)
    requires Connected(S, p, q)
    requires forall r :: Connected(S, p, r) ==> r in T
    ensures Connected(T, p, q)
  {
    var path :| PathBetween(S, path, p, q);
    forall i | 0 <= i < |path|
      ensures path[i] in T
    {
      PathPrefix(S, path, i);
    }
    assert PathBetween(T, path, p, q);
  }

  /** F is closed under edge steps that stay inside S. */
  ghost predicate ClosedIn(F: set<Point>, S: set<Point>) {
    forall a, b :: a in F && b in S && Adjacent(a, b) ==> b in F
  }

  /** A set that holds p and is closed under steps inside S holds all of p's component. */
  lemma {:induction false} ClosedContains(F: set<Point>, S: set<Point>, p: Point, q: Point)
    requires p in F && ClosedIn(F, S) && Connected(S, p, q)
    ensures q in F
  {
    var path :| PathBetween(S, path, p, q);
    ClosedContainsPrefix(F, S, path, |path| - 1);
  }

  lemma {:induction false} ClosedContainsPrefix(F: set<Point>, S: set<Point>, path: seq<Point>, i: nat)
    requires IsPath(S, path) && path[0] in F && ClosedIn(F, S) && i < |path|
    ensures path[i] in F
  {
    if i > 0 {
      ClosedContainsPrefix(F, S, path, i - 1);
      assert Adjacent(path[i - 1], path[i]);
    }
  }
}
