/** The chipper (`GPDGeomRectangleClipperIterDataPipe`): every raster is cut
    into windows, the geometry table is clipped to each window's bounds, and
    both the clipped table and the window's coordinates are moved so that
    the window's transform offset becomes the origin. The windowing
    generator is a parameter: for each raster, the windows it yields. */
module Chipper {
  import opened Boxes
  import opened Tables

  /** Rectangle a lies inside rectangle b (boundary included). */
  predicate Within(a: Rect, b: Rect)
  {
    b.xmin <= a.xmin && a.xmax <= b.xmax && b.ymin <= a.ymin && a.ymax <= b.ymax
  }

  /** The rectangles share an area: the rows the rectangle clip keeps. */
  predicate Overlaps(a: Rect, mask: Rect)
  {
    Max(a.xmin, mask.xmin) < Min(a.xmax, mask.xmax) && Max(a.ymin, mask.ymin) < Min(a.ymax, mask.ymax)
  }

  /** The part of rectangle a inside the mask. */
  function Intersect(a: Rect, mask: Rect): (r: Rect)
    ensures Within(r, mask)
    ensures Overlaps(a, mask) ==> r.xmin < r.xmax && r.ymin < r.ymax
    ensures a.xmin <= r.xmin && a.ymin <= r.ymin && r.xmax <= a.xmax && r.ymax <= a.ymax
    ensures forall q :: Within(q, a) && Within(q, mask) ==> Within(q, r)
  {
    Rect(Max(a.xmin, mask.xmin), Max(a.ymin, mask.ymin), Min(a.xmax, mask.xmax), Min(a.ymax, mask.ymax))
  }

  /** `df.clip(mask=bounds)` with a rectangular mask: rows that do not
      overlap the mask are dropped, the others are cut to the mask; the
      class column is kept. */
  function ClipTable(t: GeoTable, mask: Rect): (c: GeoTable)
    ensures |c| <= |t|
    ensures forall k :: 0 <= k < |c| ==> Within(c[k].geometry, mask)
  {
    if t == [] then []
    else
      (if Overlaps(t[0].geometry, mask) then [GeoRow(Intersect(t[0].geometry, mask), t[0].c)] else [])
      + ClipTable(t[1..], mask)
  }

  /** `translate(xoff=dx, yoff=dy)` of one rectangle. */
  function Translate(r: Rect, dx: real, dy: real): Rect
  {
    Rect(r.xmin + dx, r.ymin + dy, r.xmax + dx, r.ymax + dy)
  }

  /** `clipped_gdf.translate(...)`: every geometry moved, classes kept. */
  function TranslateTable(t: GeoTable, dx: real, dy: real): (moved: GeoTable)
    ensures |moved| == |t|
    ensures forall k :: 0 <= k < |t| ==> moved[k].c == t[k].c
  {
    seq(|t|, k requires 0 <= k < |t| => GeoRow(Translate(t[k].geometry, dx, dy), t[k].c))
  }

  /** `chip.assign_coords(x=chip.x + dx, y=chip.y + dy)`: the coordinate
      labels moved; the transform offsets and bounds, which rioxarray reads
      off the coordinates, move with them; shape and values are kept. */
  function ShiftCoords(chip: Raster, dx: real, dy: real): (moved: Raster)
    ensures moved.shape == chip.shape && moved.values == chip.values
    ensures |moved.xs| == |chip.xs| && |moved.ys| == |chip.ys|
  {
    chip.(xs := seq(|chip.xs|, k requires 0 <= k < |chip.xs| => chip.xs[k] + dx),
          ys := seq(|chip.ys|, k requires 0 <= k < |chip.ys| => chip.ys[k] + dy),
          xoff := chip.xoff + dx, yoff := chip.yoff + dy,
          bounds := Translate(chip.bounds, dx, dy))
  }

  /** One yielded pair for one window: the table clipped to the window's
      bounds, then window and table re-originated by the inverse of the
      window's own transform offsets. */
  function ChipOne(chip: Raster, t: GeoTable): (pair: (Raster, GeoTable))
    ensures pair.0.shape == chip.shape && pair.0.xoff == 0.0 && pair.0.yoff == 0.0
    ensures |pair.1| <= |t|
  {
    var clipped := ClipTable(t, chip.bounds);
    var invXoff := -1.0 * chip.xoff;
    var invYoff := -1.0 * chip.yoff;
    (ShiftCoords(chip, invXoff, invYoff), TranslateTable(clipped, invXoff, invYoff))
  }

  /** The pairs for all windows of one raster, in window order. */
  function ChipsOf(chips: seq<Raster>, t: GeoTable): seq<(Raster, GeoTable)>
  {
    seq(|chips|, j requires 0 <= j < |chips| => ChipOne(chips[j], t))
  }

  /** Number of windows over the given rasters. */
  function WindowCount(source: seq<(Raster, GeoTable)>, windows: Raster -> seq<Raster>): nat
  {
    if source == [] then 0 else |windows(source[0].0)| + WindowCount(source[1..], windows)
  }

  /** The chipper's `__iter__`: for each input pair, for each of its
      raster's windows, one pair. There is one output per window. */
  function ChipPairs(source: seq<(Raster, GeoTable)>, windows: Raster -> seq<Raster>): (out: seq<(Raster, GeoTable)>)
    ensures |out| == WindowCount(source, windows)
  {
    if source == [] then []
    else ChipsOf(windows(source[0].0), source[0].1) + ChipPairs(source[1..], windows)
  }

  /** Output position `WindowCount(source[..i]) + j` holds the j-th window of
      the i-th raster with the i-th table: all windows of one raster come
      before any window of the next, each in the generator's order. */
  lemma {:induction false} ChipPairsAt(source: seq<(Raster, GeoTable)>, windows: Raster -> seq<Raster>, i: nat, j: nat)
    requires i < |source| && j < |windows(source[i].0)|
    ensures WindowCount(source[..i], windows) + j < |ChipPairs(source, windows)|
    ensures ChipPairs(source, windows)[WindowCount(source[..i], windows) + j]
            == ChipOne(windows(source[i].0)[j], source[i].1)
  {
    if i == 0 {
      assert source[..0] == [];
    } else {
      ChipPairsAt(source[1..], windows, i - 1, j);
      assert source[1..][..i - 1] == source[..i][1..];
      assert source[1..][i - 1] == source[i];
    }
  }

  /** Chipping distributes over concatenated inputs: no interleaving. */
  lemma {:induction false} ChipPairsAppend(a: seq<(Raster, GeoTable)>, b: seq<(Raster, GeoTable)>, windows: Raster -> seq<Raster>)
    ensures ChipPairs(a + b, windows) == ChipPairs(a, windows) + ChipPairs(b, windows)
  {
    if a == [] {
      assert a + b == b;
    } else {
      assert (a + b)[1..] == a[1..] + b;
      ChipPairsAppend(a[1..], b, windows);
    }
  }

  /** A row whose rectangle overlaps the mask is in the clipped table, cut
      to the mask. */
  lemma {:induction false} ClipKeeps(t: GeoTable, mask: Rect, k: nat)
    requires k < |t| && Overlaps(t[k].geometry, mask)
    ensures GeoRow(Intersect(t[k].geometry, mask), t[k].c) in ClipTable(t, mask)
  {
    if k > 0 {
      ClipKeeps(t[1..], mask, k - 1);
    }
  }

  /** Every row of the clipped table is some overlapping input row cut to
      the mask, so a row wholly outside the mask leaves nothing. */
  lemma {:induction false} ClipOnlyOverlapping(t: GeoTable, mask: Rect, k: nat)
    requires k < |ClipTable(t, mask)|
    ensures exists i :: (0 <= i < |t| && Overlaps(t[i].geometry, mask) &&
                         ClipTable(t, mask)[k] == GeoRow(Intersect(t[i].geometry, mask), t[i].c))
  {
    var head := if Overlaps(t[0].geometry, mask) then [GeoRow(Intersect(t[0].geometry, mask), t[0].c)] else [];
    if k >= |head| {
      ClipOnlyOverlapping(t[1..], mask, k - |head|);
      var i :| 0 <= i < |t[1..]| && Overlaps(t[1..][i].geometry, mask) &&
        ClipTable(t[1..], mask)[k - |head|] == GeoRow(Intersect(t[1..][i].geometry, mask), t[1..][i].c);
      assert t[1..][i] == t[i + 1];
    }
  }

  /** Clipping keeps the table's row order: it distributes over
      concatenation. */
  lemma {:induction false} ClipAppend(a: GeoTable, b: GeoTable, mask: Rect)
    ensures ClipTable(a + b, mask) == ClipTable(a, mask) + ClipTable(b, mask)
  {
    if a == [] {
      assert a + b == b;
    } else {
      assert (a + b)[1..] == a[1..] + b;
      ClipAppend(a[1..], b, mask);
    }
  }

  /** A row wholly outside the mask is absent: the clipped table is the
      same as if the row had not been there. */
  lemma ClipDropsOutside(a: GeoTable, r: GeoRow, b: GeoTable, mask: Rect)
    requires !Overlaps(r.geometry, mask)
    ensures ClipTable(a + [r] + b, mask) == ClipTable(a + b, mask)
  {
    ClipAppend(a + [r], b, mask);
    ClipAppend(a, [r], mask);
    ClipAppend(a, b, mask);
  }

  /** A rectangle already inside the mask, with area, is kept unchanged. */
  lemma ClipInside(a: Rect, mask: Rect)
    requires Within(a, mask) && a.xmin < a.xmax && a.ymin < a.ymax
    ensures Overlaps(a, mask) && Intersect(a, mask) == a
  {
  }

  /** A translation moves a rectangle without changing its size, and the
      opposite translation moves it back. */
  lemma TranslateKeepsSize(r: Rect, dx: real, dy: real)
    ensures Translate(r, dx, dy).xmax - Translate(r, dx, dy).xmin == r.xmax - r.xmin
    ensures Translate(r, dx, dy).ymax - Translate(r, dx, dy).ymin == r.ymax - r.ymin
    ensures Translate(Translate(r, dx, dy), -dx, -dy) == r
  {
  }

  /** After chipping, a window is in its own local frame: its transform
      offset is the origin, its coordinates, bounds and every geometry are
      moved by minus its original offsets, and every geometry lies inside
      the window's local bounds. */
  lemma ChipLocalFrame(chip: Raster, t: GeoTable)
    ensures var (c, g) := ChipOne(chip, t);
      c.xoff == 0.0 && c.yoff == 0.0 &&
      c.shape == chip.shape && c.values == chip.values &&
      |c.xs| == |chip.xs| && |c.ys| == |chip.ys| &&
      (forall k :: 0 <= k < |c.xs| ==> c.xs[k] == chip.xs[k] - chip.xoff) &&
      (forall k :: 0 <= k < |c.ys| ==> c.ys[k] == chip.ys[k] - chip.yoff) &&
      c.bounds == Translate(chip.bounds, -chip.xoff, -chip.yoff) &&
      |g| <= |t| &&
      (forall k :: 0 <= k < |g| ==> Within(g[k].geometry, c.bounds))
  {
    var (c, g) := ChipOne(chip, t);
    var clipped := ClipTable(t, chip.bounds);
    forall k | 0 <= k < |g|
      ensures Within(g[k].geometry, c.bounds)
    {
      assert Within(clipped[k].geometry, chip.bounds);
    }
  }

  /** The rows of one window's table are exactly the overlapping input rows,
      cut to the window and moved into its frame. */
  lemma ChipRows(chip: Raster, t: GeoTable, k: nat)
    requires k < |ChipOne(chip, t).1|
    ensures exists i :: (0 <= i < |t| && Overlaps(t[i].geometry, chip.bounds) &&
                         ChipOne(chip, t).1[k] ==
                           GeoRow(Translate(Intersect(t[i].geometry, chip.bounds), -chip.xoff, -chip.yoff), t[i].c))
  {
    ClipOnlyOverlapping(t, chip.bounds, k);
  }
}
