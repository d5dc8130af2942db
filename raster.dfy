/** Pixels, colours and rectangular pixel grids indexed [x][y]. */
module Raster {
  import opened Geometry

  /** One 8-bit channel value. */
  type Byte = x: int | 0 <= x < 256

  /** An RGB pixel; the drawing surface is an RGB image. */
  datatype Rgb = Rgb(r: Byte, g: Byte, b: Byte)

  /** An RGBA pixel of the template; `a` is the opacity (255 is fully opaque). */
  datatype Rgba = Rgba(r: Byte, g: Byte, b: Byte, a: Byte)

  const FullyOpaque: int := 255

  const Black: Rgb := Rgb(0, 0, 0)
  /** The colour of a not-yet-discovered region pixel in the mask. */
  const Grey: Rgb := Rgb(100, 100, 100)
  /** The colour a discovered region is filled with. */
  const White: Rgb := Rgb(255, 255, 255)

  /** g has `width` columns of `height` pixels each. */
  predicate IsGrid<T>(g: seq<seq<T>>, width: int, height: int) {
    |g| == width && forall x :: 0 <= x < width ==> |g[x]| == height
  }

  predicate InGrid<T>(g: seq<seq<T>>, p: Point) {
    0 <= p.0 < |g| && 0 <= p.1 < |g[p.0]|
  }

  /**
   * The pixels of g that have colour c. Built column by column, so that its
   * members are known only through ColourSetFacts.
   */
  ghost function ColourSet<T>(g: seq<seq<T>>, c: T): set<Point> {
    ColumnsFrom(g, c, 0)
  }

  ghost function ColumnsFrom<T>(g: seq<seq<T>>, c: T, x: nat): set<Point>
    decreases |g| - x
  {
    if x >= |g| then {} else CellsFrom(g, c, x, 0) + ColumnsFrom(g, c, x + 1)
  }

  ghost function CellsFrom<T>(g: seq<seq<T>>, c: T, x: nat, y: nat): set<Point>
    requires x < |g|
    decreases |g[x]| - y
  {
    if y >= |g[x]| then {} else (if g[x][y] == c then {(x, y)} else {}) + CellsFrom(g, c, x, y + 1)
  }

  lemma {:induction false} CellsFromFacts<T>(g: seq<seq<T>>, c: T, x: nat, y: nat, p: Point)
    requires x < |g|
    ensures p in CellsFrom(g, c, x, y) <==> p.0 == x && y <= p.1 < |g[x]| && g[x][p.1] == c
    decreases |g[x]| - y
  {
    if y < |g[x]| {
      CellsFromFacts(g, c, x, y + 1, p);
    }
  }

  lemma {:induction false} ColumnsFromFacts<T>(g: seq<seq<T>>, c: T, x: nat, p: Point)
    ensures p in ColumnsFrom(g, c, x) <==> x <= p.0 && InGrid(g, p) && g[p.0][p.1] == c
    decreases |g| - x
  {
    if x < |g| {
      CellsFromFacts(g, c, x, 0, p);
      ColumnsFromFacts(g, c, x + 1, p);
    }
  }

  lemma ColourSetFacts<T>(g: seq<seq<T>>, c: T)
    ensures forall p :: p in ColourSet(g, c) <==> InGrid(g, p) && g[p.0][p.1] == c
  {
    forall p
      ensures p in ColourSet(g, c) <==> InGrid(g, p) && g[p.0][p.1] == c
    {
      ColumnsFromFacts(g, c, 0, p);
    }
  }

  /** The current contents of a drawing surface, as a value. */
  ghost function Pixels(a: array2<Rgb>): (g: seq<seq<Rgb>>)
    reads a
    ensures IsGrid(g, a.Length0, a.Length1)
    ensures forall x, y :: 0 <= x < a.Length0 && 0 <= y < a.Length1 ==> g[x][y] == a[x, y]
  {
    seq(a.Length0, x requires 0 <= x < a.Length0 reads a =>
      seq(a.Length1, y requires 0 <= y < a.Length1 reads a => a[x, y]))
  }

  /** Two grids of the same shape that agree pixel by pixel are equal. */
  lemma GridExt<T>(g1: seq<seq<T>>, g2: seq<seq<T>>, width: int, height: int)
    requires IsGrid(g1, width, height) && IsGrid(g2, width, height)
    requires forall x, y :: 0 <= x < width && 0 <= y < height ==> g1[x][y] == g2[x][y]
    ensures g1 == g2
  {
    forall x | 0 <= x < width
      ensures g1[x] == g2[x]
    {
      assert |g1[x]| == |g2[x]| == height;
      forall y | 0 <= y < height
        ensures g1[x][y] == g2[x][y]
      {
      }
    }
  }

  /** GridExt, stated over points. */
  lemma GridExtAt<T>(g1: seq<seq<T>>, g2: seq<seq<T>>, width: int, height: int)
    requires IsGrid(g1, width, height) && IsGrid(g2, width, height)
    requires forall q :: InBounds(q, width, height) ==> g1[q.0][q.1] == g2[q.0][q.1]
    ensures g1 == g2
  {
    forall x, y | 0 <= x < width && 0 <= y < height
      ensures g1[x][y] == g2[x][y]
    {
      assert InBounds((x, y), width, height);
    }
    GridExt(g1, g2, width, height);
  }
}
