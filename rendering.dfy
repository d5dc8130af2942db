/**
 * Rendering (build_colored_drawing): segment the template, colour the regions
 * from the stored items, then lay the template over the coloured drawing using
 * the template's own alpha as the paste mask.
 */
module Rendering {
  import opened Geometry
  import opened Raster
  import opened Segmentation
  import opened Colouring

  /**
   * One output pixel: the drawing pixel made fully opaque, with the template
   * pixel pasted over it. A fully opaque template pixel replaces it, a fully
   * transparent one leaves it; partial opacity mixes the two as `blend` says.
   */
  function CompositePixel(tp: Rgba, dp: Rgb, blend: (Rgba, Rgb) -> Rgba): Rgba {
    if tp.a == FullyOpaque then tp
    else if tp.a == 0 then Rgba(dp.r, dp.g, dp.b, FullyOpaque)
    else blend(tp, dp)
  }

  /** The whole composite, pixel by pixel. */
  function Composite(t: seq<seq<Rgba>>, d: seq<seq<Rgb>>, blend: (Rgba, Rgb) -> Rgba): (o: seq<seq<Rgba>>)
    requires |d| == |t| && forall x :: 0 <= x < |t| ==> |d[x]| == |t[x]|
    ensures |o| == |t| && forall x :: 0 <= x < |t| ==> |o[x]| == |t[x]|
  {
    seq(|t|, x requires 0 <= x < |t| =>
      seq(|t[x]|, y requires 0 <= y < |t[x]| => CompositePixel(t[x][y], d[x][y], blend)))
  }

  /**
   * The template shows through unchanged where it is fully opaque, and the
   * drawing, made fully opaque, where the template is fully transparent.
   */
  lemma CompositeAt(t: seq<seq<Rgba>>, d: seq<seq<Rgb>>, blend: (Rgba, Rgb) -> Rgba, q: Point)
    requires |d| == |t| && forall x :: 0 <= x < |t| ==> |d[x]| == |t[x]|
    requires InGrid(t, q)
    ensures t[q.0][q.1].a == FullyOpaque ==> Composite(t, d, blend)[q.0][q.1] == t[q.0][q.1]
    ensures t[q.0][q.1].a == 0 ==>
      var p := d[q.0][q.1];
      Composite(t, d, blend)[q.0][q.1] == Rgba(p.r, p.g, p.b, FullyOpaque)
  {
  }

  /**
   * The picture a render produces: where the template is fully transparent, a
   * pixel of region j shows region j's colour (the last usable non-black item
   * for j, or white); where it is fully opaque, the template itself.
   */
  lemma RenderedPixel(t: seq<seq<Rgba>>, width: int, height: int, regions: seq<Point>, items: seq<Item>,
                      blend: (Rgba, Rgb) -> Rgba, j: int, q: Point)
    requires IsGrid(t, width, height) && IsSeedList(t, regions) && NotBlack(items)
    requires 0 <= j < |regions| && InBounds(q, width, height) && Connected(Holes(t), regions[j], q)
    requires t[q.0][q.1].a == 0
    ensures
      var c := RegionColour(items, |regions|, j);
      var d := ApplyItems(SegmentedDrawing(t), regions, items);
      IsGrid(d, width, height) &&
      Composite(t, d, blend)[q.0][q.1] == Rgba(c.r, c.g, c.b, FullyOpaque)
  {
    var g0 := SegmentedDrawing(t);
    assert IsSegmentedDrawing(t, width, height, g0);
    ColouredRegions(t, width, height, g0, regions, items);
    CompositeAt(t, ApplyItems(g0, regions, items), blend, q);
  }

  /**
   * A template with no transparent pixel renders as itself, whatever the
   * stored items say.
   */
  lemma OpaqueRendersTemplate(t: seq<seq<Rgba>>, width: int, height: int, regions: seq<Point>, items: seq<Item>,
                              blend: (Rgba, Rgb) -> Rgba)
    requires IsGrid(t, width, height) && IsSeedList(t, regions)
    requires forall x, y :: 0 <= x < width && 0 <= y < height ==> t[x][y].a == FullyOpaque
    ensures Composite(t, ApplyItems(SegmentedDrawing(t), regions, items), blend) == t
  {
    OpaqueHasNoRegions(t, regions);
    NoRegionsNoChange(SegmentedDrawing(t), items);
    var o := Composite(t, SegmentedDrawing(t), blend);
    forall x, y | 0 <= x < width && 0 <= y < height
      ensures o[x][y] == t[x][y]
    {
      CompositeAt(t, SegmentedDrawing(t), blend, (x, y));
    }
    GridExt(o, t, width, height);
  }

  /** The current pixels of a drawing surface, read out as a value. */
  method ReadPixels(a: array2<Rgb>) returns (g: seq<seq<Rgb>>)
    ensures g == Pixels(a)
  {
    g := seq(a.Length0, x requires 0 <= x < a.Length0 reads a =>
      seq(a.Length1, y requires 0 <= y < a.Length1 reads a => a[x, y]));
    GridExt(g, Pixels(a), a.Length0, a.Length1);
  }

  /**
   * build_colored_drawing with the template and the stored items passed in.
   * `ok` is false where fill_regions raises, which build_colored_drawing lets propagate.
   */
  method BuildColouredDrawing(t: seq<seq<Rgba>>, width: nat, height: nat, items: seq<Item>,
                              blend: (Rgba, Rgb) -> Rgba)
    returns (image: seq<seq<Rgba>>, regions: seq<Point>, ok: bool)
    requires IsGrid(t, width, height)
    ensures IsSeedList(t, regions)
    ensures ok == !Crashes(items)
    ensures ok ==> image == Composite(t, ApplyItems(SegmentedDrawing(t), regions, items), blend)
  {
    var drawing;
    drawing, regions := GetDrawing(t, width, height);
    SegmentedDrawingUnique(t, width, height, Pixels(drawing));
    ok := FillRegions(drawing, regions, items);
    if !ok {
      return [], regions, ok;
    }
    var d := ReadPixels(drawing);
    image := Composite(t, d, blend);
  }
}
