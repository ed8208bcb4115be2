/** Properties that span stages: how the georeferencer and the saver read a
    raster's shape, and the round trip from annotations through chipping to
    the written label lines. */
module Pipeline {
  import opened Boxes
  import opened Tables
  import opened Georef
  import opened Chipper
  import opened Saver

  /** The lines each annotation row should end up as: its class and its own
      normalised box, a negative width or height written as its magnitude
      because the polygon between the stages sorts its corners. */
  function ExpectedLines(table: seq<Row>): seq<LabelLine>
  {
    seq(|table|, k requires 0 <= k < |table| => LabelLine(table[k].c, Upright(table[k].Box())))
  }

  /** Georeferencing an image's label table and saving it against the same
      image's shape writes back every row's class and box (exactly, when
      its extents are non-negative), for any image shape with rows and
      columns. */
  lemma {:induction false} GeorefSaveRoundTrip(img: Raster, table: seq<Row>)
    requires HasArea(img.shape)
    ensures LabelLines(LabelToGeo(table, ImageWidth(img), ImageHeight(img)), img.shape) == ExpectedLines(table)
  {
    var g := LabelToGeo(table, ImageWidth(img), ImageHeight(img));
    LabelToGeoRows(table, ImageWidth(img), ImageHeight(img));
    var lines := LabelLines(g, img.shape);
    forall k | 0 <= k < |table|
      ensures lines[k] == LabelLine(table[k].c, Upright(table[k].Box()))
    {
      assert lines[k].box == ToYolo(g[k].geometry, ImageWidth(img), ImageHeight(img));
    }
  }

  /** With the saver's reading of the shape as written (width from the rows,
      height from the columns), a box georeferenced in the same image comes
      back unchanged exactly when its extents are non-negative and the image
      is square or the box is all zeros. */
  lemma AsWrittenRoundTripIffSquare(b: YoloBox, shape: Shape)
    requires HasArea(shape)
    ensures ToYolo(ShapelyBox(ToCorners(b, shape.cols as real, shape.rows as real)), shape.rows as real, shape.cols as real) == b
            <==> 0.0 <= b.w && 0.0 <= b.h && (shape.rows == shape.cols || b == YoloBox(0.0, 0.0, 0.0, 0.0))
  {
    ShapelyBoxOfCorners(b, shape.cols as real, shape.rows as real);
    SwappedRoundTrip(b, shape.rows as real, shape.cols as real);
  }

  /** The same on reals: corners built with width cols and height rows,
      read back with the two swapped. */
  lemma SwappedRoundTrip(b: YoloBox, rows: real, cols: real)
    requires 0.0 < rows && 0.0 < cols
    ensures ToYolo(ToCorners(Upright(b), cols, rows), rows, cols) == b
            <==> 0.0 <= b.w && 0.0 <= b.h && (rows == cols || b == YoloBox(0.0, 0.0, 0.0, 0.0))
  {
    var u := Upright(b);
    var back := ToYolo(ToCorners(u, cols, rows), rows, cols);
    SwappedScaling(u, rows, cols);
    CoordinateFixed(back.x, b.x, rows, cols);
    CoordinateFixed(back.y, b.y, cols, rows);
    ExtentFixed(back.w, b.w, rows, cols);
    ExtentFixed(back.h, b.h, cols, rows);
    FixedComponents(back, b, rows == cols);
  }

  /** The box comes back unchanged exactly when each of its four components
      does. */
  lemma FixedComponents(back: YoloBox, b: YoloBox, same: bool)
    requires back.x == b.x <==> same || b.x == 0.0
    requires back.y == b.y <==> same || b.y == 0.0
    requires back.w == b.w <==> 0.0 <= b.w && (same || b.w == 0.0)
    requires back.h == b.h <==> 0.0 <= b.h && (same || b.h == 0.0)
    ensures back == b <==> 0.0 <= b.w && 0.0 <= b.h && (same || b == YoloBox(0.0, 0.0, 0.0, 0.0))
  {
  }

  /** What the swapped reading does to each coordinate: x and w come back
      scaled by cols/rows, y and h by rows/cols. */
  lemma SwappedScaling(b: YoloBox, rows: real, cols: real)
    requires rows != 0.0 && cols != 0.0
    ensures var back := ToYolo(ToCorners(b, cols, rows), rows, cols);
      back.x * rows == b.x * cols && back.w * rows == b.w * cols &&
      back.y * cols == b.y * rows && back.h * cols == b.h * rows
  {
    ToCornersExtent(b, cols, rows);
    ToYoloExtent(ToCorners(b, cols, rows), rows, cols);
  }

  /** A coordinate scaled by q/p comes back unchanged exactly when p = q or
      it is zero. */
  lemma CoordinateFixed(v': real, v: real, p: real, q: real)
    requires 0.0 < p && 0.0 < q && v' * p == v * q
    ensures v' == v <==> p == q || v == 0.0
  {
    if p == q {
      assert v * q == v * p;
      CancelFactor(v', v, p);
    } else if v == 0.0 {
      assert v' * p == 0.0 * p;
      CancelFactor(v', 0.0, p);
    }
    if v' == v && p != q {
      assert v * (p - q) == 0.0 * (p - q);
      CancelFactor(v, 0.0, p - q);
    }
  }

  /** An extent read back as its magnitude scaled by q/p comes back
      unchanged exactly when it is non-negative and p = q or it is zero. */
  lemma ExtentFixed(v': real, v: real, p: real, q: real)
    requires 0.0 < p && 0.0 < q && v' * p == Abs(v) * q
    ensures v' == v <==> 0.0 <= v && (p == q || v == 0.0)
  {
    if 0.0 <= v {
      CoordinateFixed(v', v, p, q);
    } else {
      assert 0.0 < Abs(v) * q;
    }
  }

  /** A concrete instance: in a 2-row, 4-column image a box of class 3 at
      (0.5, 0.5) of size (0.5, 0.5) is written back by the saver as written
      as a different box, and by the intended saver as itself. */
  lemma AsWrittenNonSquareCounterexample()
    ensures var img := Raster(Shape(1, 2, 4), [], [], 0.0, 0.0, Rect(0.0, 0.0, 4.0, 2.0), []);
            var table := [Row("a.png", 3, 0.5, 0.5, 0.5, 0.5)];
            var g := LabelToGeo(table, ImageWidth(img), ImageHeight(img));
            LabelLinesAsWritten(g, img.shape) == [LabelLine(3, YoloBox(1.0, 0.25, 1.0, 0.25))] &&
            LabelLinesAsWritten(g, img.shape) != ExpectedLines(table) &&
            LabelLines(g, img.shape) == ExpectedLines(table)
  {
    var img := Raster(Shape(1, 2, 4), [], [], 0.0, 0.0, Rect(0.0, 0.0, 4.0, 2.0), []);
    var table := [Row("a.png", 3, 0.5, 0.5, 0.5, 0.5)];
    assert ImageWidth(img) == 4.0 && ImageHeight(img) == 2.0;
    ExampleGeometry();
    ExampleLines();
    assert ExpectedLines(table) == [LabelLine(3, YoloBox(0.5, 0.5, 0.5, 0.5))];
  }

  /** The example's box as a polygon in the 4-wide, 2-high image. */
  lemma ExampleGeometry()
    ensures LabelToGeo([Row("a.png", 3, 0.5, 0.5, 0.5, 0.5)], 4.0, 2.0) == [GeoRow(Rect(1.0, 0.5, 3.0, 1.5), 3)]
  {
    assert ToCorners(YoloBox(0.5, 0.5, 0.5, 0.5), 4.0, 2.0) == Rect(1.0, 0.5, 3.0, 1.5);
  }

  /** The example polygon saved with the shape read as written and as
      intended. */
  lemma ExampleLines()
    ensures LabelLinesAsWritten([GeoRow(Rect(1.0, 0.5, 3.0, 1.5), 3)], Shape(1, 2, 4)) == [LabelLine(3, YoloBox(1.0, 0.25, 1.0, 0.25))]
    ensures LabelLines([GeoRow(Rect(1.0, 0.5, 3.0, 1.5), 3)], Shape(1, 2, 4)) == [LabelLine(3, YoloBox(0.5, 0.5, 0.5, 0.5))]
  {
    assert ToYolo(Rect(1.0, 0.5, 3.0, 1.5), 2.0, 4.0) == YoloBox(1.0, 0.25, 1.0, 0.25);
    assert ToYolo(Rect(1.0, 0.5, 3.0, 1.5), 4.0, 2.0) == YoloBox(0.5, 0.5, 0.5, 0.5);
  }

  /** A normalised box wholly inside its image and of positive size. */
  predicate InsideImage(b: YoloBox)
  {
    0.0 < b.w && 0.0 < b.h &&
    0.0 <= b.x - b.w / 2.0 && b.x + b.w / 2.0 <= 1.0 &&
    0.0 <= b.y - b.h / 2.0 && b.y + b.h / 2.0 <= 1.0
  }

  /** Such a box's rectangle lies inside the image's pixel extent and has
      area. */
  lemma ScaledInside(b: YoloBox, width: real, height: real)
    requires InsideImage(b) && 0.0 < width && 0.0 < height
    ensures var r := ToCorners(b, width, height);
      Within(r, Rect(0.0, 0.0, width, height)) && r.xmin < r.xmax && r.ymin < r.ymax
  {
    AxisInside(b.x, b.w, width);
    AxisInside(b.y, b.h, height);
  }

  /** One axis of ScaledInside: a centre c and extent e inside [0, 1],
      scaled by k, give an interval inside [0, k] with positive length. */
  lemma AxisInside(c: real, e: real, k: real)
    requires 0.0 < e && 0.0 <= c - e / 2.0 && c + e / 2.0 <= 1.0 && 0.0 < k
    ensures 0.0 <= c * k - e * k / 2.0
    ensures c * k + e * k / 2.0 <= k
    ensures c * k - e * k / 2.0 < c * k + e * k / 2.0
  {
    assert (c - e / 2.0) * k == c * k - e * k / 2.0;
    assert (c + e / 2.0) * k == c * k + e * k / 2.0;
    assert 0.0 <= (c - e / 2.0) * k;
    assert (c + e / 2.0) * k <= 1.0 * k;
    assert 0.0 < e * k;
  }

  /** End to end, for a raster cut into a single window that is the whole
      raster at offset (0, 0): every annotation box inside the image comes
      out of the georeferencer, the chipper and the saver as the same class
      and the same normalised box, in the same order. */
  lemma {:induction false} WholeWindowRoundTrip(img: Raster, table: seq<Row>)
    requires HasArea(img.shape)
    requires img.xoff == 0.0 && img.yoff == 0.0
    requires img.bounds == Rect(0.0, 0.0, ImageWidth(img), ImageHeight(img))
    requires forall k :: 0 <= k < |table| ==> InsideImage(table[k].Box())
    ensures var chipped := ChipOne(img, LabelToGeo(table, ImageWidth(img), ImageHeight(img)));
            HasArea(chipped.0.shape) && LabelLines(chipped.1, chipped.0.shape) == ExpectedLines(table)
  {
    var width, height := ImageWidth(img), ImageHeight(img);
    var g := LabelToGeo(table, width, height);
    forall k | 0 <= k < |g|
      ensures Overlaps(g[k].geometry, img.bounds) && Intersect(g[k].geometry, img.bounds) == g[k].geometry
    {
      ScaledInside(table[k].Box(), width, height);
      ClipInside(g[k].geometry, img.bounds);
    }
    ClipAllInside(g, img.bounds);
    var chipped := ChipOne(img, g);
    assert chipped.0.shape == img.shape;
    assert chipped.1 == g;
    GeorefSaveRoundTrip(img, table);
  }

  /** A table whose every rectangle is inside the mask, with area, clips to
      itself. */
  lemma {:induction false} ClipAllInside(t: GeoTable, mask: Rect)
    requires forall k :: 0 <= k < |t| ==> Overlaps(t[k].geometry, mask) && Intersect(t[k].geometry, mask) == t[k].geometry
    ensures ClipTable(t, mask) == t
  {
    if t != [] {
      ClipAllInside(t[1..], mask);
    }
  }
}
