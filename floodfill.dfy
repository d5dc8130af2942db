/**
 * The flood fill the drawing code relies on (PIL's ImageDraw.floodfill with
 * no border colour and threshold 0): starting at a seed pixel, every pixel
 * reachable through edge-adjacent pixels of the seed's colour takes the new
 * colour.
 */
module FloodFill {
  import opened Geometry
  import opened Raster

  /** The seed's component: what a fill from `seed` with `value` recolours. */
  ghost predicate Reached(g: seq<seq<Rgb>>, seed: Point, value: Rgb, p: Point)
    requires InGrid(g, seed)
  {
    g[seed.0][seed.1] != value && Connected(ColourSet(g, g[seed.0][seed.1]), seed, p)
  }

  /**
   * The grid after a fill. A seed outside the image, or one that already has
   * the fill colour, changes nothing.
   */
  ghost function FloodFilled(g: seq<seq<Rgb>>, seed: Point, value: Rgb): (r: seq<seq<Rgb>>)
    ensures |r| == |g| && forall x :: 0 <= x < |g| ==> |r[x]| == |g[x]|
  {
    if !InGrid(g, seed) then g
    else
      seq(|g|, x requires 0 <= x < |g| =>
        seq(|g[x]|, y requires 0 <= y < |g[x]| =>
          if Reached(g, seed, value, (x, y)) then value else g[x][y]))
  }

  /** The surface shows `value` on `filled` and the original pixels elsewhere. */
  ghost predicate Painted(a: array2<Rgb>, g0: seq<seq<Rgb>>, filled: set<Point>, value: Rgb)
    reads a
    requires IsGrid(g0, a.Length0, a.Length1)
  {
    forall x, y :: 0 <= x < a.Length0 && 0 <= y < a.Length1 ==>
      a[x, y] == if (x, y) in filled then value else g0[x][y]
  }

  /**
   * Recolours n when it lies in the image and has the background colour, and
   * says whether it did.
   */
  method VisitOne(a: array2<Rgb>, n: Point, background: Rgb, value: Rgb) returns (hit: bool)
    modifies a
    ensures hit <==> InBounds(n, a.Length0, a.Length1) && old(a[n.0, n.1]) == background
    ensures forall x, y :: 0 <= x < a.Length0 && 0 <= y < a.Length1 ==>
      a[x, y] == if hit && (x, y) == n then value else old(a[x, y])
  {
    hit := 0 <= n.0 < a.Length0 && 0 <= n.1 < a.Length1 && a[n.0, n.1] == background;
    if hit {
      a[n.0, n.1] := value;
    }
  }

  /**
   * Recolours every edge neighbour of p that lies in the image and has the
   * background colour, and returns those neighbours.
   */
  method VisitNeighbours(a: array2<Rgb>, p: Point, background: Rgb, value: Rgb) returns (added: seq<Point>)
    requires background != value
    modifies a
    ensures forall q :: q in added ==>
      Adjacent(p, q) && InBounds(q, a.Length0, a.Length1) && old(a[q.0, q.1]) == background
    ensures forall q :: Adjacent(p, q) && InBounds(q, a.Length0, a.Length1) && old(a[q.0, q.1]) == background ==>
      q in added
    ensures forall x, y :: 0 <= x < a.Length0 && 0 <= y < a.Length1 ==>
      a[x, y] == if (x, y) in added then value else old(a[x, y])
  {
    var ns := Neighbours(p);
    added := [];
    for i := 0 to 4
      invariant forall q :: q in added ==>
        q in ns[..i] && InBounds(q, a.Length0, a.Length1) && old(a[q.0, q.1]) == background
      invariant forall j :: 0 <= j < i && InBounds(ns[j], a.Length0, a.Length1) && old(a[ns[j].0, ns[j].1]) == background ==>
        ns[j] in added
      invariant forall x, y :: 0 <= x < a.Length0 && 0 <= y < a.Length1 ==>
        a[x, y] == if (x, y) in added then value else old(a[x, y])
    {
      var n := ns[i];
      var hit := VisitOne(a, n, background, value);
      if hit {
        added := added + [n];
      }
    }
    forall q | Adjacent(p, q)
      ensures q == ns[0] || q == ns[1] || q == ns[2] || q == ns[3]
    {
    }
  }

  /**
   * The worklist invariant: every recoloured pixel is in the seed's component,
   * and a recoloured pixel with an unrecoloured neighbour of the background
   * colour is still waiting in the worklist.
   */
  ghost predicate Frontier(S: set<Point>, seed: Point, filled: set<Point>, work: seq<Point>) {
    && filled <= S && seed in filled
    && (forall k :: 0 <= k < |work| ==> work[k] in filled)
    && (forall q :: q in filled ==> Connected(S, seed, q))
    && (forall q, n :: q in filled && n in S && Adjacent(q, n) && n !in filled ==> q in work)
  }

  /** Taking p off the worklist and recolouring its fresh neighbours keeps the invariant. */
  lemma FrontierStep(S: set<Point>, seed: Point, filled: set<Point>, work: seq<Point>, added: seq<Point>)
    requires Frontier(S, seed, filled, work) && work != []
    requires forall q :: q in added ==> Adjacent(work[|work| - 1], q) && q in S && q !in filled
    requires forall n :: Adjacent(work[|work| - 1], n) && n in S && n !in filled ==> n in added
    ensures Frontier(S, seed, filled + (set q | q in added), work[..|work| - 1] + added)
    ensures added != [] ==> |S - (filled + (set q | q in added))| < |S - filled|
  {
    var p := work[|work| - 1];
    var rest := work[..|work| - 1];
    var grown := filled + (set q | q in added);
    assert p in filled;
    forall q | q in added
      ensures Connected(S, seed, q)
    {
      ConnectedStep(S, seed, p, q);
    }
    forall k | 0 <= k < |rest + added|
      ensures (rest + added)[k] in grown
    {
      if k >= |rest| {
        assert (rest + added)[k] == added[k - |rest|];
      }
    }
    forall q, n | q in grown && n in S && Adjacent(q, n) && n !in grown
      ensures q in rest + added
    {
      if q in filled && q != p {
        assert work == rest + [p];
      }
    }
    if added != [] {
      assert added[0] in S - filled;
      assert S - grown < S - filled;
    }
  }

  /**
   * Visiting p's neighbours from a surface painted on `filled` recolours
   * exactly p's background-coloured neighbours outside `filled`.
   */
  lemma VisitStep(a: array2<Rgb>, g0: seq<seq<Rgb>>, S: set<Point>, filled: set<Point>, p: Point,
                  added: seq<Point>, background: Rgb, value: Rgb, before: seq<seq<Rgb>>)
    requires background != value && IsGrid(g0, a.Length0, a.Length1) && IsGrid(before, a.Length0, a.Length1)
    requires forall q :: q in S <==> InGrid(g0, q) && g0[q.0][q.1] == background
    requires forall x, y :: 0 <= x < a.Length0 && 0 <= y < a.Length1 ==>
      before[x][y] == if (x, y) in filled then value else g0[x][y]
    requires forall q :: q in added ==>
      Adjacent(p, q) && InBounds(q, a.Length0, a.Length1) && before[q.0][q.1] == background
    requires forall q :: Adjacent(p, q) && InBounds(q, a.Length0, a.Length1) && before[q.0][q.1] == background ==>
      q in added
    requires forall x, y :: 0 <= x < a.Length0 && 0 <= y < a.Length1 ==>
      a[x, y] == if (x, y) in added then value else before[x][y]
    ensures forall q :: q in added ==> Adjacent(p, q) && q in S && q !in filled
    ensures forall n :: Adjacent(p, n) && n in S && n !in filled ==> n in added
    ensures Painted(a, g0, filled + (set q | q in added), value)
  {
  }

  /**
   * The worklist loop: recolours the seed's component of background pixels,
   * returning (as ghost) the set of recoloured pixels.
   */
  method Spill(a: array2<Rgb>, seed: Point, background: Rgb, value: Rgb, ghost g0: seq<seq<Rgb>>, ghost S: set<Point>)
    returns (ghost filled: set<Point>)
    requires InBounds(seed, a.Length0, a.Length1) && background != value
    requires IsGrid(g0, a.Length0, a.Length1) && Painted(a, g0, {}, value)
    requires forall q :: q in S <==> InGrid(g0, q) && g0[q.0][q.1] == background
    requires seed in S
    modifies a
    ensures seed in filled && ClosedIn(filled, S) && Painted(a, g0, filled, value)
    ensures forall q :: q in filled ==> Connected(S, seed, q)
  {
    ConnectedRefl(S, seed);
    a[seed.0, seed.1] := value;
    filled := {seed};
    var work := [seed];
    while work != []
      invariant Frontier(S, seed, filled, work)
      invariant Painted(a, g0, filled, value)
      decreases |S - filled|, |work|
    {
      var p := work[|work| - 1];
      ghost var before := Pixels(a);
      var added := VisitNeighbours(a, p, background, value);
      VisitStep(a, g0, S, filled, p, added, background, value, before);
      FrontierStep(S, seed, filled, work, added);
      filled := filled + (set q | q in added);
      work := work[..|work| - 1] + added;
    }
  }

  /** Worklist flood fill over 4-neighbours, bounded by the image. */
  method Fill(a: array2<Rgb>, seed: Point, value: Rgb)
    modifies a
    ensures Pixels(a) == FloodFilled(old(Pixels(a)), seed, value)
  {
    ghost var g0 := Pixels(a);
    if !(0 <= seed.0 < a.Length0 && 0 <= seed.1 < a.Length1) {
      return;
    }
    var background := a[seed.0, seed.1];
    if background == value {
      GridExt(Pixels(a), FloodFilled(g0, seed, value), a.Length0, a.Length1);
      return;
    }
    ghost var S := ColourSet(g0, background);
    ColourSetFacts(g0, background);
    ghost var filled := Spill(a, seed, background, value, g0, S);
    FillComplete(a, g0, S, seed, value, filled);
  }

  lemma FillComplete(a: array2<Rgb>, g0: seq<seq<Rgb>>, S: set<Point>, seed: Point, value: Rgb, filled: set<Point>)
    requires IsGrid(g0, a.Length0, a.Length1) && InGrid(g0, seed)
    requires g0[seed.0][seed.1] != value
    requires S == ColourSet(g0, g0[seed.0][seed.1])
    requires seed in filled && ClosedIn(filled, S) && Painted(a, g0, filled, value)
    requires forall q :: q in filled ==> Connected(S, seed, q)
    ensures Pixels(a) == FloodFilled(g0, seed, value)
  {
    FloodFilledAt(g0, a.Length0, a.Length1, seed, value);
    var r := FloodFilled(g0, seed, value);
    var now := Pixels(a);
    forall x, y | 0 <= x < a.Length0 && 0 <= y < a.Length1
      ensures now[x][y] == r[x][y]
    {
      var q := (x, y);
      assert r[x][y] == if Connected(S, seed, q) then value else g0[x][y];
      if Connected(S, seed, q) {
        ClosedContains(filled, S, seed, q);
      }
      assert a[x, y] == if q in filled then value else g0[x][y];
    }
    GridExt(now, r, a.Length0, a.Length1);
  }

  /** What a fill does to each pixel of a rectangular grid. */
  lemma FloodFilledAt(g: seq<seq<Rgb>>, width: int, height: int, seed: Point, value: Rgb)
    requires IsGrid(g, width, height)
    ensures IsGrid(FloodFilled(g, seed, value), width, height)
    ensures forall q :: InBounds(q, width, height) ==>
      FloodFilled(g, seed, value)[q.0][q.1] ==
        if InGrid(g, seed) && Reached(g, seed, value, q) then value else g[q.0][q.1]
  {
  }
}
