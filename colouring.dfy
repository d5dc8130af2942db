/**
 * Colouring a segmented drawing from the stored colour items (fill_regions):
 * each item names a region index and an "r,g,b" colour, and the region's seed
 * is flood-filled with that colour.
 */
module Colouring {
  import opened Geometry
  import opened Raster
  import opened PyText
  import FloodFill
  import Segmentation

  /** An attribute of a stored item: absent, a number, or a string. */
  datatype Field = Missing | Number(n: int) | Text(s: string)

  /** One stored colour choice. */
  datatype Item = Item(region: Field, color: Field)

  /**
   * `int(item['Region'])`: None where Python raises (a missing key, or a
   * string `int()` rejects).
   */
  function RegionIndex(f: Field): (r: Option<int>)
    ensures f.Number? ==> r == Some(f.n)
    ensures f.Missing? ==> r == None
  {
    match f
    case Missing => None
    case Number(n) => Some(n)
    case Text(s) => ParseInt(s)
  }

  /** Three integers, as `int()` returns them; not yet limited to a channel's range. */
  type Triple = (int, int, int)

  /**
   * `item['Color'].split(',')` unpacked into three names and each passed to
   * `int()`: None where Python raises (a missing key, a value that is not a
   * string, not exactly three pieces, or a piece `int()` rejects).
   */
  function ParseColour(f: Field): (c: Option<Triple>)
    ensures c.Some? ==> f.Text? && |Split(f.s, ',')| == 3
  {
    match f
    case Text(s) =>
      var parts := Split(s, ',');
      if |parts| != 3 then None
      else
        (match (ParseInt(parts[0]), ParseInt(parts[1]), ParseInt(parts[2]))
         case (Some(r), Some(g), Some(b)) => Some((r, g, b))
         case _ => None)
    case _ => None
  }

  /** The range of a C `int`, which the imaging library converts each component to. */
  const IntMin: int := -0x8000_0000
  const IntMax: int := 0x7FFF_FFFF

  /** A component as an 8-bit channel stores it: clamped to 0..255. */
  function Clamp(n: int): (b: Byte)
    ensures 0 <= n < 256 ==> b == n
    ensures n < 0 ==> b == 0
    ensures n >= 256 ==> b == 255
  {
    if n < 0 then 0 else if n > 255 then 255 else n
  }

  /**
   * The colour a fill with these components writes: each clamped to a byte.
   * A component outside the C int range makes the write raise (None).
   */
  function InkOf(c: Triple): (ink: Option<Rgb>)
    ensures ink.Some? <==> IntMin <= c.0 <= IntMax && IntMin <= c.1 <= IntMax && IntMin <= c.2 <= IntMax
    ensures 0 <= c.0 < 256 && 0 <= c.1 < 256 && 0 <= c.2 < 256 ==> ink == Some(Rgb(c.0, c.1, c.2))
  {
    if IntMin <= c.0 <= IntMax && IntMin <= c.1 <= IntMax && IntMin <= c.2 <= IntMax
    then Some(Rgb(Clamp(c.0), Clamp(c.1), Clamp(c.2)))
    else None
  }

  /** The colour an item's Color attribute paints with, or None where the fill raises. */
  function Ink(f: Field): Option<Rgb> {
    match ParseColour(f)
    case None => None
    case Some(c) => InkOf(c)
  }

  /** The "r,g,b" text of three components. */
  function ColourText(c: Triple): string {
    DecimalString(c.0) + "," + DecimalString(c.1) + "," + DecimalString(c.2)
  }

  /** Every triple written as "r,g,b" reads back as itself. */
  lemma ParseColourText(c: Triple)
    ensures ParseColour(Text(ColourText(c))) == Some(c)
  {
    var parts := [DecimalString(c.0), DecimalString(c.1), DecimalString(c.2)];
    forall k | 0 <= k < 3
      ensures ',' !in parts[k]
    {
      var n := if k == 0 then c.0 else if k == 1 then c.1 else c.2;
      DecimalHasNoComma(n);
    }
    SplitJoin(parts, ',');
    assert parts[1..] == [parts[1], parts[2]] && parts[1..][1..] == [parts[2]];
    assert Join(parts[1..][1..], ',') == parts[2];
    assert Join(parts[1..], ',') == parts[1] + [','] + parts[2];
    assert Join(parts, ',') == parts[0] + [','] + (parts[1] + [','] + parts[2]);
    assert Join(parts, ',') == ColourText(c);
    ParseDecimalString(c.0);
    ParseDecimalString(c.1);
    ParseDecimalString(c.2);
  }

  /** A colour's own "r,g,b" text paints exactly that colour. */
  lemma InkOfColourText(c: Rgb)
    ensures Ink(Text(ColourText((c.r, c.g, c.b)))) == Some(c)
  {
    ParseColourText((c.r, c.g, c.b));
  }

  lemma DecimalHasNoComma(n: int)
    ensures ',' !in DecimalString(n)
  {
    var digits := NaturalString(if n < 0 then -n else n);
    assert forall i :: 0 <= i < |digits| ==> digits[i] != ',';
  }

  /** A colour text without exactly two commas is rejected. */
  lemma ColourNeedsTwoCommas(s: string)
    requires Count(s, ',') != 2
    ensures ParseColour(Text(s)) == None
  {
    SplitPieces(s, ',');
  }

  /** The region and colour an item applies, when both are usable for `count` regions. */
  function ItemFill(item: Item, count: int): (o: Option<(int, Rgb)>)
    ensures o.Some? ==> 0 <= o.value.0 < count
    ensures o.Some? ==> RegionIndex(item.region) == Some(o.value.0) && Ink(item.color) == Some(o.value.1)
    ensures o.None? ==> RegionIndex(item.region).None? || RegionIndex(item.region).value < 0 ||
                        RegionIndex(item.region).value >= count || Ink(item.color).None?
  {
    match RegionIndex(item.region)
    case None => None
    case Some(r) =>
      if 0 <= r < count then
        match Ink(item.color)
        case None => None
        case Some(c) => Some((r, c))
      else None
  }

  /** One item's effect on the drawing; an item that raises inside the loop changes nothing. */
  ghost function ApplyItem(g: seq<seq<Rgb>>, regions: seq<Point>, item: Item): (r: seq<seq<Rgb>>)
    ensures |r| == |g| && forall x :: 0 <= x < |g| ==> |r[x]| == |g[x]|
  {
    match ItemFill(item, |regions|)
    case None => g
    case Some((r, c)) => FloodFill.FloodFilled(g, regions[r], c)
  }

  /** The items' effects, in order. */
  ghost function ApplyItems(g: seq<seq<Rgb>>, regions: seq<Point>, items: seq<Item>): (r: seq<seq<Rgb>>)
    ensures |r| == |g| && forall x :: 0 <= x < |g| ==> |r[x]| == |g[x]|
  {
    if items == [] then g
    else ApplyItem(ApplyItems(g, regions, items[..|items| - 1]), regions, items[|items| - 1])
  }

  /** Extending the prefix of items by one applies that one more item. */
  lemma ApplyItemsStep(g: seq<seq<Rgb>>, regions: seq<Point>, items: seq<Item>, i: nat)
    requires i < |items|
    ensures ApplyItems(g, regions, items[..i + 1]) == ApplyItem(ApplyItems(g, regions, items[..i]), regions, items[i])
  {
    assert items[..i + 1][..i] == items[..i];
  }

  /**
   * The exception handler formats the last parsed region index, a name the
   * function binds only once some item's Region has parsed. So the first item
   * with an unusable Region raises out of fill_regions exactly when it is the
   * very first item.
   */
  predicate Crashes(items: seq<Item>) {
    |items| > 0 && RegionIndex(items[0].region).None?
  }

  /**
   * fill_regions. Returns false where the function raises instead of returning
   * (see Crashes); the drawing is then untouched.
   */
  method FillRegions(drawing: array2<Rgb>, regions: seq<Point>, items: seq<Item>) returns (ok: bool)
    modifies drawing
    ensures ok == !Crashes(items)
    ensures ok ==> Pixels(drawing) == ApplyItems(old(Pixels(drawing)), regions, items)
    ensures !ok ==> Pixels(drawing) == old(Pixels(drawing))
  {
    ghost var g0 := Pixels(drawing);
    var bound := false;
    for i := 0 to |items|
      invariant bound <==> i > 0
      invariant i > 0 ==> RegionIndex(items[0].region).Some?
      invariant Pixels(drawing) == ApplyItems(g0, regions, items[..i])
    {
      var item := items[i];
      ApplyItemsStep(g0, regions, items, i);
      var parsed := RegionIndex(item.region);
      if parsed.None? {
        if !bound {
          return false;
        }
      } else {
        bound := true;
        var region := parsed.value;
        if region < |regions| && region >= 0 {
          var colour := Ink(item.color);
          if colour.Some? {
            FloodFill.Fill(drawing, regions[region], colour.value);
          }
        }
      }
    }
    assert items[..|items|] == items;
    return true;
  }

  // ---------------------------------------------------------------------
  // What an item does to a drawing whose regions are each one colour.

  /**
   * Each region of t is one colour on g, the opaque pixels are black and the
   * region pixels are not: what the scan leaves, and what every non-black
   * fill keeps.
   */
  ghost predicate Uniform(t: seq<seq<Rgba>>, width: int, height: int, g: seq<seq<Rgb>>) {
    && IsGrid(t, width, height) && IsGrid(g, width, height)
    && (forall q :: InBounds(q, width, height) ==>
          (g[q.0][q.1] == Black <==> t[q.0][q.1].a >= FullyOpaque))
    && (forall p, q ::
          (InBounds(p, width, height) && InBounds(q, width, height) && Connected(Segmentation.Holes(t), p, q)) ==>
          g[p.0][p.1] == g[q.0][q.1])
  }

  /** g with the region of s painted c and every other pixel kept. */
  ghost function Recolour(t: seq<seq<Rgba>>, g: seq<seq<Rgb>>, s: Point, c: Rgb): seq<seq<Rgb>> {
    seq(|g|, x requires 0 <= x < |g| =>
      seq(|g[x]|, y requires 0 <= y < |g[x]| =>
        if Connected(Segmentation.Holes(t), s, (x, y)) then c else g[x][y]))
  }

  lemma RecolourAt(t: seq<seq<Rgba>>, width: int, height: int, g: seq<seq<Rgb>>, s: Point, c: Rgb)
    requires IsGrid(g, width, height)
    ensures IsGrid(Recolour(t, g, s, c), width, height)
    ensures forall q :: InBounds(q, width, height) ==>
      Recolour(t, g, s, c)[q.0][q.1] == if Connected(Segmentation.Holes(t), s, q) then c else g[q.0][q.1]
  {
  }

  /** The segmented drawing is uniform. */
  lemma SegmentedIsUniform(t: seq<seq<Rgba>>, width: int, height: int, g: seq<seq<Rgb>>)
    requires Segmentation.IsSegmentedDrawing(t, width, height, g)
    ensures Uniform(t, width, height, g)
  {
    Segmentation.HolesFacts(t);
    forall p, q | InBounds(p, width, height) && InBounds(q, width, height) &&
        Connected(Segmentation.Holes(t), p, q)
      ensures g[p.0][p.1] == g[q.0][q.1]
    {
      ConnectedEnds(Segmentation.Holes(t), p, q);
    }
  }

  /**
   * On a uniform drawing, filling from a region pixel with a non-black colour
   * paints exactly that region: the fill can neither stop short inside the
   * region nor leak through the black outlines.
   */
  lemma FillIsRecolour(t: seq<seq<Rgba>>, width: int, height: int, g: seq<seq<Rgb>>, s: Point, c: Rgb)
    requires Uniform(t, width, height, g)
    requires InBounds(s, width, height) && t[s.0][s.1].a < FullyOpaque
    requires c != Black
    ensures FloodFill.FloodFilled(g, s, c) == Recolour(t, g, s, c)
  {
    FloodFill.FloodFilledAt(g, width, height, s, c);
    RecolourAt(t, width, height, g, s, c);
    forall q | InBounds(q, width, height)
      ensures FloodFill.FloodFilled(g, s, c)[q.0][q.1] == Recolour(t, g, s, c)[q.0][q.1]
    {
      SameRegion(t, width, height, g, s, c, q);
    }
    GridExtAt(FloodFill.FloodFilled(g, s, c), Recolour(t, g, s, c), width, height);
  }

  /** The component a fill reaches is the region, or nothing when it is already c. */
  lemma SameRegion(t: seq<seq<Rgba>>, width: int, height: int, g: seq<seq<Rgb>>, s: Point, c: Rgb, q: Point)
    requires Uniform(t, width, height, g)
    requires InBounds(s, width, height) && t[s.0][s.1].a < FullyOpaque
    requires c != Black && InBounds(q, width, height)
    ensures (if FloodFill.Reached(g, s, c, q) then c else g[q.0][q.1]) ==
            (if Connected(Segmentation.Holes(t), s, q) then c else g[q.0][q.1])
  {
    var H := Segmentation.Holes(t);
    var C := g[s.0][s.1];
    var S := ColourSet(g, C);
    Segmentation.HolesFacts(t);
    ColourSetFacts(g, C);
    assert S <= H;
    if Connected(S, s, q) {
      ConnectedMono(S, H, s, q);
    }
    if Connected(H, s, q) {
      forall r | Connected(H, s, r)
        ensures r in S
      {
        ConnectedEnds(H, s, r);
      }
      ConnectedWithin(H, S, s, q);
    }
  }

  /** A non-black recolouring of a region pixel keeps the drawing uniform. */
  lemma RecolourUniform(t: seq<seq<Rgba>>, width: int, height: int, g: seq<seq<Rgb>>, s: Point, c: Rgb)
    requires Uniform(t, width, height, g)
    requires c != Black
    ensures Uniform(t, width, height, Recolour(t, g, s, c))
  {
    var H := Segmentation.Holes(t);
    var g2 := Recolour(t, g, s, c);
    Segmentation.HolesFacts(t);
    RecolourAt(t, width, height, g, s, c);
    forall q | InBounds(q, width, height)
      ensures g2[q.0][q.1] == Black <==> t[q.0][q.1].a >= FullyOpaque
    {
      if Connected(H, s, q) {
        ConnectedEnds(H, s, q);
      }
    }
    forall p, q | InBounds(p, width, height) && InBounds(q, width, height) && Connected(H, p, q)
      ensures g2[p.0][p.1] == g2[q.0][q.1]
    {
      if Connected(H, s, p) {
        ConnectedTrans(H, s, p, q);
      } else if Connected(H, s, q) {
        ConnectedSym(H, p, q);
        ConnectedTrans(H, s, q, p);
      }
    }
  }

  /** No item paints black, the colour of the outlines. */
  predicate NotBlack(items: seq<Item>) {
    forall k :: 0 <= k < |items| ==> Ink(items[k].color) != Some(Black)
  }

  /**
   * On a uniform drawing with a seed list, a usable non-black item repaints
   * its region and nothing else, and the drawing stays uniform; any other
   * item leaves the drawing as it was.
   */
  lemma ApplyItemEffect(t: seq<seq<Rgba>>, width: int, height: int, g: seq<seq<Rgb>>, regions: seq<Point>, item: Item)
    requires Uniform(t, width, height, g) && Segmentation.IsSeedList(t, regions)
    requires Ink(item.color) != Some(Black)
    ensures ApplyItem(g, regions, item) ==
      var o := ItemFill(item, |regions|);
      if o.None? then g else Recolour(t, g, regions[o.value.0], o.value.1)
    ensures Uniform(t, width, height, ApplyItem(g, regions, item))
  {
    match ItemFill(item, |regions|)
    case None =>
    case Some((r, c)) =>
      var s := regions[r];
      Segmentation.HolesFacts(t);
      assert s in Segmentation.Holes(t);
      FillIsRecolour(t, width, height, g, s, c);
      RecolourUniform(t, width, height, g, s, c);
  }

  /** ApplyItemEffect pixel by pixel. */
  lemma ApplyItemAt(t: seq<seq<Rgba>>, width: int, height: int, g: seq<seq<Rgb>>, regions: seq<Point>, item: Item)
    requires Uniform(t, width, height, g) && Segmentation.IsSeedList(t, regions)
    requires Ink(item.color) != Some(Black)
    ensures IsGrid(ApplyItem(g, regions, item), width, height)
    ensures forall q :: InBounds(q, width, height) ==>
      ApplyItem(g, regions, item)[q.0][q.1] ==
        var o := ItemFill(item, |regions|);
        if o.Some? && Connected(Segmentation.Holes(t), regions[o.value.0], q) then o.value.1 else g[q.0][q.1]
  {
    ApplyItemEffect(t, width, height, g, regions, item);
    match ItemFill(item, |regions|)
    case None =>
    case Some((r, c)) =>
      RecolourAt(t, width, height, g, regions[r], c);
  }

  /** Of two items for the same region, the later one decides its colour. */
  lemma LastWins(t: seq<seq<Rgba>>, width: int, height: int, g: seq<seq<Rgb>>, regions: seq<Point>, first: Item, second: Item)
    requires Uniform(t, width, height, g) && Segmentation.IsSeedList(t, regions)
    requires Ink(first.color) != Some(Black) && Ink(second.color) != Some(Black)
    requires ItemFill(first, |regions|).Some? && ItemFill(second, |regions|).Some?
    requires ItemFill(first, |regions|).value.0 == ItemFill(second, |regions|).value.0
    ensures ApplyItem(ApplyItem(g, regions, first), regions, second) == ApplyItem(g, regions, second)
  {
    var g1 := ApplyItem(g, regions, first);
    ApplyItemEffect(t, width, height, g, regions, first);
    ApplyItemAt(t, width, height, g1, regions, second);
    ApplyItemAt(t, width, height, g, regions, second);
    forall q | InBounds(q, width, height)
      ensures ApplyItem(g1, regions, second)[q.0][q.1] == ApplyItem(g, regions, second)[q.0][q.1]
    {
      if !Connected(Segmentation.Holes(t), regions[ItemFill(second, |regions|).value.0], q) {
        ApplyItemAt(t, width, height, g, regions, first);
      }
    }
    GridExtAt(ApplyItem(g1, regions, second), ApplyItem(g, regions, second), width, height);
  }

  /** Items for different regions can be applied in either order. */
  lemma DistinctRegionsCommute(t: seq<seq<Rgba>>, width: int, height: int, g: seq<seq<Rgb>>, regions: seq<Point>, first: Item, second: Item)
    requires Uniform(t, width, height, g) && Segmentation.IsSeedList(t, regions)
    requires Ink(first.color) != Some(Black) && Ink(second.color) != Some(Black)
    requires ItemFill(first, |regions|).Some? && ItemFill(second, |regions|).Some?
    requires ItemFill(first, |regions|).value.0 != ItemFill(second, |regions|).value.0
    ensures ApplyItem(ApplyItem(g, regions, first), regions, second) ==
            ApplyItem(ApplyItem(g, regions, second), regions, first)
  {
    var r1 := ItemFill(first, |regions|).value.0;
    var r2 := ItemFill(second, |regions|).value.0;
    var H := Segmentation.Holes(t);
    var ga := ApplyItem(g, regions, first);
    var gb := ApplyItem(g, regions, second);
    ApplyItemEffect(t, width, height, g, regions, first);
    ApplyItemEffect(t, width, height, g, regions, second);
    ApplyItemAt(t, width, height, g, regions, first);
    ApplyItemAt(t, width, height, g, regions, second);
    ApplyItemAt(t, width, height, ga, regions, second);
    ApplyItemAt(t, width, height, gb, regions, first);
    forall q | InBounds(q, width, height)
      ensures ApplyItem(ga, regions, second)[q.0][q.1] == ApplyItem(gb, regions, first)[q.0][q.1]
    {
      if Connected(H, regions[r1], q) && Connected(H, regions[r2], q) {
        ConnectedSym(H, regions[r2], q);
        ConnectedTrans(H, regions[r1], q, regions[r2]);
        Segmentation.SeedsDistinctRegions(t, regions, r1, r2);
      }
    }
    GridExtAt(ApplyItem(ga, regions, second), ApplyItem(gb, regions, first), width, height);
  }

  // ---------------------------------------------------------------------
  // The colour map the items describe.

  /**
   * The colour region j ends up with: that of the last usable item naming j,
   * or the scan's white when there is none.
   */
  function RegionColour(items: seq<Item>, count: int, j: int): (c: Rgb)
    ensures c == White || exists k :: 0 <= k < |items| && ItemFill(items[k], count) == Some((j, c))
  {
    if items == [] then White
    else
      match ItemFill(items[|items| - 1], count)
      case Some((r, c)) =>
        if r == j then c else RegionColour(items[..|items| - 1], count, j)
      case None => RegionColour(items[..|items| - 1], count, j)
  }

  /**
   * The rendered drawing: on the scan's drawing, with non-black colours, every
   * region shows the colour of the last usable item naming it (white if there
   * is none), and every opaque pixel stays black.
   */
  lemma {:induction false} ColouredRegions(t: seq<seq<Rgba>>, width: int, height: int, g0: seq<seq<Rgb>>,
                                           regions: seq<Point>, items: seq<Item>)
    requires Segmentation.IsSegmentedDrawing(t, width, height, g0) && Segmentation.IsSeedList(t, regions)
    requires NotBlack(items)
    ensures Uniform(t, width, height, ApplyItems(g0, regions, items))
    ensures forall j, q ::
      (0 <= j < |regions| && InBounds(q, width, height) && Connected(Segmentation.Holes(t), regions[j], q)) ==>
        ApplyItems(g0, regions, items)[q.0][q.1] == RegionColour(items, |regions|, j)
  {
    var H := Segmentation.Holes(t);
    if items == [] {
      SegmentedIsUniform(t, width, height, g0);
      forall j, q | 0 <= j < |regions| && InBounds(q, width, height) && Connected(H, regions[j], q)
        ensures g0[q.0][q.1] == White
      {
        ConnectedEnds(H, regions[j], q);
        Segmentation.HolesFacts(t);
      }
    } else {
      var init := items[..|items| - 1];
      var last := items[|items| - 1];
      assert NotBlack(init) by {
        forall k | 0 <= k < |init|
          ensures Ink(init[k].color) != Some(Black)
        {
          assert init[k] == items[k];
        }
      }
      ColouredRegions(t, width, height, g0, regions, init);
      var g := ApplyItems(g0, regions, init);
      ApplyItemEffect(t, width, height, g, regions, last);
      match ItemFill(last, |regions|)
      case None =>
      case Some((r, c)) =>
        RecolourAt(t, width, height, g, regions[r], c);
        forall j, q | 0 <= j < |regions| && InBounds(q, width, height) && Connected(H, regions[j], q)
          ensures Recolour(t, g, regions[r], c)[q.0][q.1] == RegionColour(items, |regions|, j)
        {
          if j != r && Connected(H, regions[r], q) {
            ConnectedSym(H, regions[j], q);
            ConnectedTrans(H, regions[r], q, regions[j]);
            Segmentation.SeedsDistinctRegions(t, regions, r, j);
          } else if j == r {
          }
        }
    }
  }

  /** With no region (an all-opaque template), no item changes the drawing. */
  lemma {:induction false} NoRegionsNoChange(g: seq<seq<Rgb>>, items: seq<Item>)
    ensures ApplyItems(g, [], items) == g
  {
    if items != [] {
      NoRegionsNoChange(g, items[..|items| - 1]);
    }
  }
}
