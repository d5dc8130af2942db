/**
 * Segmentation of a template into addressable regions (get_drawing): the
 * alpha channel becomes a grey/black mask, and a column-major scan flood-fills
 * every grey pixel it meets to white, recording that pixel as the seed of a
 * new region. A region's index is its seed's position in the list.
 */
module Segmentation {
  import opened Geometry
  import opened Raster
  import FloodFill

  /** Mask colour of one template pixel: grey when not fully opaque, black otherwise. */
  function MaskPixel(p: Rgba): (m: Rgb)
    ensures m.r == m.g == m.b
    ensures m == Grey <==> p.a < FullyOpaque
    ensures m == Black <==> p.a >= FullyOpaque
  {
    var d := if p.a < FullyOpaque then 100 else 0;
    Rgb(d, d, d)
  }

  /** The mask of a whole template, pixel by pixel. */
  function Mask(t: seq<seq<Rgba>>): (m: seq<seq<Rgb>>)
    ensures |m| == |t| && forall x :: 0 <= x < |t| ==> |m[x]| == |t[x]|
  {
    seq(|t|, x requires 0 <= x < |t| => seq(|t[x]|, y requires 0 <= y < |t[x]| => MaskPixel(t[x][y])))
  }

  /** The pixels that are not fully opaque: the material regions are made of. */
  ghost function Holes(t: seq<seq<Rgba>>): set<Point> {
    ColourSet(Mask(t), Grey)
  }

  lemma HolesFacts(t: seq<seq<Rgba>>)
    ensures forall p :: p in Holes(t) <==> InGrid(t, p) && t[p.0][p.1].a < FullyOpaque
  {
    ColourSetFacts(Mask(t), Grey);
  }

  // ---------------------------------------------------------------------
  // What a correct seed list is.

  predicate SeedsSorted(seeds: seq<Point>) {
    forall i, j :: 0 <= i < j < |seeds| ==> ScanBefore(seeds[i], seeds[j])
  }

  ghost predicate SeedsInHoles(t: seq<seq<Rgba>>, seeds: seq<Point>) {
    forall i :: 0 <= i < |seeds| ==> seeds[i] in Holes(t)
  }

  /** Each seed is the first pixel of its region in scan order. */
  ghost predicate SeedsFirst(t: seq<seq<Rgba>>, seeds: seq<Point>) {
    forall i, q :: 0 <= i < |seeds| && Connected(Holes(t), seeds[i], q) ==> !ScanBefore(q, seeds[i])
  }

  /**
   * q is a non-opaque pixel. (A predicate of its own, so that the quantifier
   * below is triggered only where a caller names a pixel, not by every pixel
   * of every path.)
   */
  ghost predicate IsHole(t: seq<seq<Rgba>>, q: Point) {
    q in Holes(t)
  }

  /** Every non-opaque pixel belongs to the region of some seed. */
  ghost predicate SeedsCover(t: seq<seq<Rgba>>, seeds: seq<Point>) {
    forall q :: IsHole(t, q) ==> exists i :: 0 <= i < |seeds| && Connected(Holes(t), seeds[i], q)
  }

  ghost predicate IsSeedList(t: seq<seq<Rgba>>, seeds: seq<Point>) {
    SeedsSorted(seeds) && SeedsInHoles(t, seeds) && SeedsFirst(t, seeds) && SeedsCover(t, seeds)
  }

  /** What the scan leaves on the drawing: white where the template is not opaque, black elsewhere. */
  ghost predicate IsSegmentedDrawing(t: seq<seq<Rgba>>, width: int, height: int, g: seq<seq<Rgb>>) {
    && IsGrid(t, width, height) && IsGrid(g, width, height)
    && forall x, y :: 0 <= x < width && 0 <= y < height ==>
         g[x][y] == if t[x][y].a < FullyOpaque then White else Black
  }

  // ---------------------------------------------------------------------
  // The scan.

  /** A drawing pixel is still its mask colour, or a non-opaque pixel already filled white. */
  predicate Progress(tp: Rgba, gp: Rgb) {
    gp == MaskPixel(tp) || (tp.a < FullyOpaque && gp == White)
  }

  /** The scan's invariant when it is about to look at pixel `pos`. */
  ghost predicate ScanInv(t: seq<seq<Rgba>>, width: int, height: int, g: seq<seq<Rgb>>, seeds: seq<Point>, pos: Point) {
    && IsGrid(t, width, height) && IsGrid(g, width, height)
    && (forall q :: InBounds(q, width, height) ==> Progress(t[q.0][q.1], g[q.0][q.1]))
    && (forall q :: InBounds(q, width, height) && g[q.0][q.1] == White ==>
          exists i :: 0 <= i < |seeds| && Connected(Holes(t), seeds[i], q))
    && (forall q, i :: InBounds(q, width, height) && g[q.0][q.1] == Grey && 0 <= i < |seeds| ==>
          !Connected(Holes(t), seeds[i], q))
    && (forall q :: InBounds(q, width, height) && ScanBefore(q, pos) ==> g[q.0][q.1] != Grey)
    && SeedsSorted(seeds) && SeedsInHoles(t, seeds) && SeedsFirst(t, seeds)
    && (forall i :: 0 <= i < |seeds| ==> ScanBefore(seeds[i], pos))
  }

  lemma ScanStart(t: seq<seq<Rgba>>, width: int, height: int, g: seq<seq<Rgb>>)
    requires IsGrid(t, width, height) && g == Mask(t)
    ensures ScanInv(t, width, height, g, [], (0, 0))
  {
  }

  /** A grey pixel's fill recolours exactly its region of non-opaque pixels. */
  lemma FillIsRegion(t: seq<seq<Rgba>>, width: int, height: int, g: seq<seq<Rgb>>, seeds: seq<Point>, pos: Point, q: Point)
    requires ScanInv(t, width, height, g, seeds, pos)
    requires InBounds(pos, width, height) && g[pos.0][pos.1] == Grey
    ensures FloodFill.Reached(g, pos, White, q) <==> Connected(Holes(t), pos, q)
  {
    var S := Holes(t);
    var G := ColourSet(g, Grey);
    HolesFacts(t);
    ColourSetFacts(g, Grey);
    assert G <= S;
    if Connected(G, pos, q) {
      ConnectedMono(G, S, pos, q);
    }
    if Connected(S, pos, q) {
      forall r | Connected(S, pos, r)
        ensures r in G
      {
        ConnectedEnds(S, pos, r);
        if g[r.0][r.1] == White {
          var i :| 0 <= i < |seeds| && Connected(S, seeds[i], r);
          ConnectedSym(S, pos, r);
          ConnectedTrans(S, seeds[i], r, pos);
          assert false;
        }
      }
      ConnectedWithin(S, G, pos, q);
    }
  }

  /** g2 is g with the region of pos turned white. */
  ghost predicate RegionWhitened(t: seq<seq<Rgba>>, width: int, height: int, g: seq<seq<Rgb>>, g2: seq<seq<Rgb>>, pos: Point)
    requires IsGrid(g, width, height)
  {
    && IsGrid(g2, width, height)
    && forall q :: InBounds(q, width, height) ==>
         g2[q.0][q.1] == if Connected(Holes(t), pos, q) then White else g[q.0][q.1]
  }

  lemma FillWhitensRegion(t: seq<seq<Rgba>>, width: int, height: int, g: seq<seq<Rgb>>, g2: seq<seq<Rgb>>, seeds: seq<Point>, pos: Point)
    requires ScanInv(t, width, height, g, seeds, pos)
    requires InBounds(pos, width, height) && g[pos.0][pos.1] == Grey
    requires g2 == FloodFill.FloodFilled(g, pos, White)
    ensures RegionWhitened(t, width, height, g, g2, pos)
  {
    FloodFill.FloodFilledAt(g, width, height, pos, White);
    forall q | InBounds(q, width, height)
      ensures g2[q.0][q.1] == if Connected(Holes(t), pos, q) then White else g[q.0][q.1]
    {
      FillIsRegion(t, width, height, g, seeds, pos, q);
    }
  }

  /** The new seed's region had no earlier pixel: those are already white, so belong to other seeds. */
  lemma NewSeedFirst(t: seq<seq<Rgba>>, width: int, height: int, g: seq<seq<Rgb>>, seeds: seq<Point>, pos: Point, q: Point)
    requires ScanInv(t, width, height, g, seeds, pos)
    requires InBounds(pos, width, height) && g[pos.0][pos.1] == Grey
    requires Connected(Holes(t), pos, q)
    ensures !ScanBefore(q, pos)
  {
    var S := Holes(t);
    HolesFacts(t);
    ConnectedEnds(S, pos, q);
    if ScanBefore(q, pos) {
      assert g[q.0][q.1] == White;
      var k :| 0 <= k < |seeds| && Connected(S, seeds[k], q);
      ConnectedSym(S, pos, q);
      ConnectedTrans(S, seeds[k], q, pos);
      assert false;
    }
  }

  /** No pixel of the new seed's region comes before it. */
  lemma NewSeedFirstAll(t: seq<seq<Rgba>>, width: int, height: int, g: seq<seq<Rgb>>, seeds: seq<Point>, pos: Point)
    requires ScanInv(t, width, height, g, seeds, pos)
    requires InBounds(pos, width, height) && g[pos.0][pos.1] == Grey
    ensures forall q :: Connected(Holes(t), pos, q) ==> !ScanBefore(q, pos)
  {
    forall q | Connected(Holes(t), pos, q)
      ensures !ScanBefore(q, pos)
    {
      NewSeedFirst(t, width, height, g, seeds, pos, q);
    }
  }

  /** Filling the grey pixel at (x, y) and recording it as a seed keeps the invariant. */
  lemma ScanFillStep(t: seq<seq<Rgba>>, width: int, height: int, g: seq<seq<Rgb>>, g2: seq<seq<Rgb>>, seeds: seq<Point>, x: int, y: int)
    requires ScanInv(t, width, height, g, seeds, (x, y))
    requires InBounds((x, y), width, height) && g[x][y] == Grey
    requires g2 == FloodFill.FloodFilled(g, (x, y), White)
    ensures ScanInv(t, width, height, g2, seeds + [(x, y)], (x, y + 1))
  {
    FillWhitensRegion(t, width, height, g, g2, seeds, (x, y));
    WhitenedStep(t, width, height, g, g2, seeds, x, y);
  }

  lemma WhitenedStep(t: seq<seq<Rgba>>, width: int, height: int, g: seq<seq<Rgb>>, g2: seq<seq<Rgb>>, seeds: seq<Point>, x: int, y: int)
    requires ScanInv(t, width, height, g, seeds, (x, y))
    requires InBounds((x, y), width, height) && g[x][y] == Grey
    requires RegionWhitened(t, width, height, g, g2, (x, y))
    ensures ScanInv(t, width, height, g2, seeds + [(x, y)], (x, y + 1))
  {
    NewSeedFirstAll(t, width, height, g, seeds, (x, y));
    WhitenedInv(t, width, height, g, g2, seeds, (x, y));
  }

  lemma WhitenedInv(t: seq<seq<Rgba>>, width: int, height: int, g: seq<seq<Rgb>>, g2: seq<seq<Rgb>>, seeds: seq<Point>, pos: Point)
    requires ScanInv(t, width, height, g, seeds, pos)
    requires InBounds(pos, width, height) && g[pos.0][pos.1] == Grey
    requires RegionWhitened(t, width, height, g, g2, pos)
    requires forall q :: Connected(Holes(t), pos, q) ==> !ScanBefore(q, pos)
    ensures ScanInv(t, width, height, g2, seeds + [pos], (pos.0, pos.1 + 1))
  {
    WhitenedPixels(t, width, height, g, g2, seeds, pos);
    HolesFacts(t);
    WhitenedSeeds(t, seeds, pos);
  }

  /** The conditions on the drawing's pixels after a region is whitened. */
  lemma WhitenedPixels(t: seq<seq<Rgba>>, width: int, height: int, g: seq<seq<Rgb>>, g2: seq<seq<Rgb>>, seeds: seq<Point>, pos: Point)
    requires ScanInv(t, width, height, g, seeds, pos)
    requires InBounds(pos, width, height) && g[pos.0][pos.1] == Grey
    requires RegionWhitened(t, width, height, g, g2, pos)
    ensures forall q :: InBounds(q, width, height) ==> Progress(t[q.0][q.1], g2[q.0][q.1])
    ensures forall q :: InBounds(q, width, height) && g2[q.0][q.1] == White ==>
      exists i :: 0 <= i < |seeds + [pos]| && Connected(Holes(t), (seeds + [pos])[i], q)
    ensures forall q, i :: InBounds(q, width, height) && g2[q.0][q.1] == Grey && 0 <= i < |seeds + [pos]| ==>
      !Connected(Holes(t), (seeds + [pos])[i], q)
    ensures forall q :: InBounds(q, width, height) && ScanBefore(q, (pos.0, pos.1 + 1)) ==> g2[q.0][q.1] != Grey
  {
    WhitenedProgress(t, width, height, g, g2, seeds, pos);
    WhitenedCovered(t, width, height, g, g2, seeds, pos);
    WhitenedApart(t, width, height, g, g2, seeds, pos);
    WhitenedScanned(t, width, height, g, g2, seeds, pos);
  }

  lemma WhitenedScanned(t: seq<seq<Rgba>>, width: int, height: int, g: seq<seq<Rgb>>, g2: seq<seq<Rgb>>, seeds: seq<Point>, pos: Point)
    requires ScanInv(t, width, height, g, seeds, pos)
    requires InBounds(pos, width, height) && g[pos.0][pos.1] == Grey
    requires RegionWhitened(t, width, height, g, g2, pos)
    ensures forall q :: InBounds(q, width, height) && ScanBefore(q, (pos.0, pos.1 + 1)) ==> g2[q.0][q.1] != Grey
  {
    HolesFacts(t);
    ConnectedRefl(Holes(t), pos);
    forall q | InBounds(q, width, height) && ScanBefore(q, (pos.0, pos.1 + 1))
      ensures g2[q.0][q.1] != Grey
    {
      if q != pos {
        assert ScanBefore(q, pos);
      }
    }
  }

  lemma WhitenedProgress(t: seq<seq<Rgba>>, width: int, height: int, g: seq<seq<Rgb>>, g2: seq<seq<Rgb>>, seeds: seq<Point>, pos: Point)
    requires ScanInv(t, width, height, g, seeds, pos)
    requires InBounds(pos, width, height) && g[pos.0][pos.1] == Grey
    requires RegionWhitened(t, width, height, g, g2, pos)
    ensures forall q :: InBounds(q, width, height) ==> Progress(t[q.0][q.1], g2[q.0][q.1])
  {
    var S := Holes(t);
    HolesFacts(t);
    forall q | InBounds(q, width, height)
      ensures Progress(t[q.0][q.1], g2[q.0][q.1])
    {
      if Connected(S, pos, q) {
        ConnectedEnds(S, pos, q);
      }
    }
  }

  lemma WhitenedCovered(t: seq<seq<Rgba>>, width: int, height: int, g: seq<seq<Rgb>>, g2: seq<seq<Rgb>>, seeds: seq<Point>, pos: Point)
    requires ScanInv(t, width, height, g, seeds, pos)
    requires InBounds(pos, width, height) && g[pos.0][pos.1] == Grey
    requires RegionWhitened(t, width, height, g, g2, pos)
    ensures forall q :: InBounds(q, width, height) && g2[q.0][q.1] == White ==>
      exists i :: 0 <= i < |seeds + [pos]| && Connected(Holes(t), (seeds + [pos])[i], q)
  {
    var S := Holes(t);
    var seeds' := seeds + [pos];
    forall q | InBounds(q, width, height) && g2[q.0][q.1] == White
      ensures exists i :: 0 <= i < |seeds'| && Connected(S, seeds'[i], q)
    {
      if Connected(S, pos, q) {
        assert seeds'[|seeds|] == pos;
      } else {
        var i :| 0 <= i < |seeds| && Connected(S, seeds[i], q);
        assert seeds'[i] == seeds[i];
      }
    }
  }

  lemma WhitenedApart(t: seq<seq<Rgba>>, width: int, height: int, g: seq<seq<Rgb>>, g2: seq<seq<Rgb>>, seeds: seq<Point>, pos: Point)
    requires ScanInv(t, width, height, g, seeds, pos)
    requires InBounds(pos, width, height) && g[pos.0][pos.1] == Grey
    requires RegionWhitened(t, width, height, g, g2, pos)
    ensures forall q, i :: InBounds(q, width, height) && g2[q.0][q.1] == Grey && 0 <= i < |seeds + [pos]| ==>
      !Connected(Holes(t), (seeds + [pos])[i], q)
  {
    var S := Holes(t);
    var seeds' := seeds + [pos];
    forall q, i | InBounds(q, width, height) && g2[q.0][q.1] == Grey && 0 <= i < |seeds'|
      ensures !Connected(S, seeds'[i], q)
    {
      if i < |seeds| {
        assert seeds'[i] == seeds[i];
      }
    }
  }

  /** The conditions on the seed list after the new seed is appended. */
  lemma WhitenedSeeds(t: seq<seq<Rgba>>, seeds: seq<Point>, pos: Point)
    requires SeedsSorted(seeds) && SeedsInHoles(t, seeds) && SeedsFirst(t, seeds)
    requires forall i :: 0 <= i < |seeds| ==> ScanBefore(seeds[i], pos)
    requires pos in Holes(t)
    requires forall q :: Connected(Holes(t), pos, q) ==> !ScanBefore(q, pos)
    ensures SeedsSorted(seeds + [pos]) && SeedsInHoles(t, seeds + [pos]) && SeedsFirst(t, seeds + [pos])
    ensures forall i :: 0 <= i < |seeds + [pos]| ==> ScanBefore((seeds + [pos])[i], (pos.0, pos.1 + 1))
  {
    var seeds' := seeds + [pos];
    forall i, q | 0 <= i < |seeds'| && Connected(Holes(t), seeds'[i], q)
      ensures !ScanBefore(q, seeds'[i])
    {
      if i < |seeds| {
        assert seeds'[i] == seeds[i];
      }
    }
    forall i, j | 0 <= i < j < |seeds'|
      ensures ScanBefore(seeds'[i], seeds'[j])
    {
      assert seeds'[i] == seeds[i];
    }
    forall i | 0 <= i < |seeds'|
      ensures seeds'[i] in Holes(t)
    {
      if i < |seeds| {
        assert seeds'[i] == seeds[i];
      }
    }
  }

  /** A pixel that is not grey is passed over. */
  lemma ScanSkipStep(t: seq<seq<Rgba>>, width: int, height: int, g: seq<seq<Rgb>>, seeds: seq<Point>, x: int, y: int)
    requires ScanInv(t, width, height, g, seeds, (x, y))
    requires InBounds((x, y), width, height) && g[x][y] != Grey
    ensures ScanInv(t, width, height, g, seeds, (x, y + 1))
  {
  }

  /** The end of a column is the start of the next one. */
  lemma ScanNextColumn(t: seq<seq<Rgba>>, width: int, height: int, g: seq<seq<Rgb>>, seeds: seq<Point>, x: int)
    requires 0 <= x < width && 0 <= height
    requires ScanInv(t, width, height, g, seeds, (x, height))
    ensures ScanInv(t, width, height, g, seeds, (x + 1, 0))
  {
    HolesFacts(t);
    forall i | 0 <= i < |seeds|
      ensures ScanBefore(seeds[i], (x + 1, 0))
    {
      assert seeds[i] in Holes(t);
    }
  }

  /** After the last column the drawing is segmented and the seeds form a seed list. */
  lemma ScanEnd(t: seq<seq<Rgba>>, width: int, height: int, g: seq<seq<Rgb>>, seeds: seq<Point>)
    requires ScanInv(t, width, height, g, seeds, (width, 0))
    ensures IsSegmentedDrawing(t, width, height, g)
    ensures IsSeedList(t, seeds)
  {
    HolesFacts(t);
    forall x, y | 0 <= x < width && 0 <= y < height
      ensures g[x][y] == if t[x][y].a < FullyOpaque then White else Black
    {
      assert InBounds((x, y), width, height) && ScanBefore((x, y), (width, 0));
    }
    forall q | IsHole(t, q)
      ensures exists i :: 0 <= i < |seeds| && Connected(Holes(t), seeds[i], q)
    {
      assert InBounds(q, width, height) && ScanBefore(q, (width, 0));
    }
  }

  /** One column of the scan: y runs down column x. */
  method ScanColumn(t: seq<seq<Rgba>>, width: nat, height: nat, drawing: array2<Rgb>, x: nat, regions: seq<Point>)
    returns (regions': seq<Point>)
    requires x < width && drawing.Length0 == width && drawing.Length1 == height
    requires ScanInv(t, width, height, Pixels(drawing), regions, (x, 0))
    modifies drawing
    ensures ScanInv(t, width, height, Pixels(drawing), regions', (x + 1, 0))
  {
    regions' := regions;
    for y := 0 to height
      invariant ScanInv(t, width, height, Pixels(drawing), regions', (x, y))
    {
      var c := drawing[x, y];
      if c == Grey {
        ghost var before := Pixels(drawing);
        FloodFill.Fill(drawing, (x, y), White);
        ScanFillStep(t, width, height, before, Pixels(drawing), regions', x, y);
        regions' := regions' + [(x, y)];
      } else {
        ScanSkipStep(t, width, height, Pixels(drawing), regions', x, y);
      }
    }
    ScanNextColumn(t, width, height, Pixels(drawing), regions', x);
  }

  /**
   * get_drawing without the file I/O: builds the mask, then scans it column by
   * column, flood-filling each grey pixel it meets to white and recording it.
   */
  method GetDrawing(t: seq<seq<Rgba>>, width: nat, height: nat) returns (drawing: array2<Rgb>, regions: seq<Point>)
    requires IsGrid(t, width, height)
    ensures fresh(drawing) && drawing.Length0 == width && drawing.Length1 == height
    ensures IsSegmentedDrawing(t, width, height, Pixels(drawing))
    ensures IsSeedList(t, regions)
  {
    drawing := new Rgb[width, height]((x, y) requires 0 <= x < width && 0 <= y < height => MaskPixel(t[x][y]));
    GridExt(Pixels(drawing), Mask(t), width, height);
    ScanStart(t, width, height, Pixels(drawing));
    regions := [];
    for x := 0 to width
      invariant ScanInv(t, width, height, Pixels(drawing), regions, (x, 0))
    {
      regions := ScanColumn(t, width, height, drawing, x, regions);
    }
    ScanEnd(t, width, height, Pixels(drawing), regions);
  }

  // ---------------------------------------------------------------------
  // What a seed list determines.

  /** Two seeds of one list never lie in the same region. */
  lemma SeedsDistinctRegions(t: seq<seq<Rgba>>, seeds: seq<Point>, i: int, j: int)
    requires IsSeedList(t, seeds)
    requires 0 <= i < |seeds| && 0 <= j < |seeds| && i != j
    ensures !Connected(Holes(t), seeds[i], seeds[j])
  {
    if Connected(Holes(t), seeds[i], seeds[j]) {
      ConnectedSym(Holes(t), seeds[i], seeds[j]);
    }
  }

  /** Every non-opaque pixel belongs to the region of exactly one seed. */
  lemma RegionOfPixel(t: seq<seq<Rgba>>, seeds: seq<Point>, q: Point) returns (i: int)
    requires IsSeedList(t, seeds)
    requires q in Holes(t)
    ensures 0 <= i < |seeds| && Connected(Holes(t), seeds[i], q)
    ensures forall j :: 0 <= j < |seeds| && Connected(Holes(t), seeds[j], q) ==> j == i
  {
    assert IsHole(t, q);
    i :| 0 <= i < |seeds| && Connected(Holes(t), seeds[i], q);
    forall j | 0 <= j < |seeds| && Connected(Holes(t), seeds[j], q)
      ensures j == i
    {
      if j != i {
        ConnectedSym(Holes(t), seeds[j], q);
        ConnectedTrans(Holes(t), seeds[i], q, seeds[j]);
        SeedsDistinctRegions(t, seeds, i, j);
      }
    }
  }

  /** A seed of one seed list is a seed of any other for the same template. */
  lemma SeedShared(t: seq<seq<Rgba>>, a: seq<Point>, b: seq<Point>, i: int) returns (k: int)
    requires SeedsInHoles(t, a) && SeedsFirst(t, a) && SeedsFirst(t, b) && SeedsCover(t, b)
    requires 0 <= i < |a|
    ensures 0 <= k < |b| && b[k] == a[i]
  {
    assert IsHole(t, a[i]);
    k := SharedFirst(Holes(t), a, b, i);
  }

  lemma SharedFirst(S: set<Point>, a: seq<Point>, b: seq<Point>, i: int) returns (k: int)
    requires 0 <= i < |a| && a[i] in S
    requires forall q :: Connected(S, a[i], q) ==> !ScanBefore(q, a[i])
    requires forall j, q :: 0 <= j < |b| && Connected(S, b[j], q) ==> !ScanBefore(q, b[j])
    requires exists j :: 0 <= j < |b| && Connected(S, b[j], a[i])
    ensures 0 <= k < |b| && b[k] == a[i]
  {
    var p := a[i];
    k :| 0 <= k < |b| && Connected(S, b[k], p);
    ConnectedSym(S, b[k], p);
  }

  /** The first element of a non-empty list is one of its elements. */
  lemma FirstOf(s: seq<Point>)
    requires s != []
    ensures s[0] in s
  {
  }

  /** Two strictly scan-ordered lists with the same elements are equal. */
  lemma {:induction false} SortedUnique(a: seq<Point>, b: seq<Point>)
    requires SeedsSorted(a) && SeedsSorted(b)
    requires forall p :: p in a <==> p in b
    ensures a == b
  {
    if a == [] && b != [] {
      FirstOf(b);
      assert false;
    } else if b == [] && a != [] {
      FirstOf(a);
      assert false;
    } else if a != [] {
      assert a[0] in b;
      assert b[0] in a;
      assert a[0] == b[0];
      forall p
        ensures p in a[1..] <==> p in b[1..]
      {
        if p in a[1..] {
          var m :| 1 <= m < |a| && a[m] == p;
          assert ScanBefore(a[0], p);
          assert p in b && p != b[0];
          var k :| 0 <= k < |b| && b[k] == p;
          assert b[1..][k - 1] == p;
        }
        if p in b[1..] {
          var k :| 1 <= k < |b| && b[k] == p;
          assert ScanBefore(b[0], p);
          assert p in a && p != a[0];
          var m :| 0 <= m < |a| && a[m] == p;
          assert a[1..][m - 1] == p;
        }
      }
      assert SeedsSorted(a[1..]) && SeedsSorted(b[1..]) by {
        forall i, j | 0 <= i < j < |a| - 1
          ensures ScanBefore(a[1..][i], a[1..][j])
        {
          assert a[1..][i] == a[i + 1] && a[1..][j] == a[j + 1];
        }
        forall i, j | 0 <= i < j < |b| - 1
          ensures ScanBefore(b[1..][i], b[1..][j])
        {
          assert b[1..][i] == b[i + 1] && b[1..][j] == b[j + 1];
        }
      }
      SortedUnique(a[1..], b[1..]);
      assert a == [a[0]] + a[1..] && b == [b[0]] + b[1..];
    }
  }

  /**
   * The seed list is determined by the template alone: the regions and their
   * numbering do not depend on how the scan was carried out.
   */
  lemma SeedListUnique(t: seq<seq<Rgba>>, a: seq<Point>, b: seq<Point>)
    requires IsSeedList(t, a) && IsSeedList(t, b)
    ensures a == b
  {
    forall p
      ensures p in a <==> p in b
    {
      if p in a {
        var i :| 0 <= i < |a| && a[i] == p;
        var k := SeedShared(t, a, b, i);
      }
      if p in b {
        var i :| 0 <= i < |b| && b[i] == p;
        var k := SeedShared(t, b, a, i);
      }
    }
    SortedUnique(a, b);
  }

  /** A template with no transparent pixel has no regions. */
  lemma OpaqueHasNoRegions(t: seq<seq<Rgba>>, seeds: seq<Point>)
    requires IsSeedList(t, seeds)
    requires forall x, y :: 0 <= x < |t| && 0 <= y < |t[x]| ==> t[x][y].a >= FullyOpaque
    ensures seeds == []
  {
    HolesFacts(t);
    if seeds != [] {
      FirstOf(seeds);
      assert false;
    }
  }

  /** A template with a pixel that is not fully opaque has at least one region. */
  lemma NonEmptyHasRegion(t: seq<seq<Rgba>>, seeds: seq<Point>, q: Point)
    requires IsSeedList(t, seeds)
    requires InGrid(t, q) && t[q.0][q.1].a < FullyOpaque
    ensures |seeds| > 0
  {
    HolesFacts(t);
    assert IsHole(t, q);
  }

  /** The drawing the scan leaves: white on non-opaque pixels, black on opaque ones. */
  function SegmentedDrawing(t: seq<seq<Rgba>>): (g: seq<seq<Rgb>>)
    ensures |g| == |t| && forall x :: 0 <= x < |t| ==> |g[x]| == |t[x]|
  {
    seq(|t|, x requires 0 <= x < |t| =>
      seq(|t[x]|, y requires 0 <= y < |t[x]| => if t[x][y].a < FullyOpaque then White else Black))
  }

  /** The scan's drawing is determined by the template. */
  lemma SegmentedDrawingUnique(t: seq<seq<Rgba>>, width: int, height: int, g: seq<seq<Rgb>>)
    requires IsSegmentedDrawing(t, width, height, g)
    ensures g == SegmentedDrawing(t)
  {
    GridExt(g, SegmentedDrawing(t), width, height);
  }
}
