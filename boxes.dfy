/** Box arithmetic shared by the georeferencing and saving stages: the
    YOLO centre encoding, the corner encoding, and the two conversions
    between them. Reals stand for the source's floating-point tensors. */
module Boxes {

  /** A box in YOLO encoding: centre (x, y) and extent (w, h). Normalised
      boxes give each as a fraction of the image's width or height. */
  datatype YoloBox = YoloBox(x: real, y: real, w: real, h: real)

  /** An axis-aligned rectangle by its corners (xmin, ymin, xmax, ymax), the
      order of shapely's `box` arguments and of a geometry's `bounds`. */
  datatype Rect = Rect(xmin: real, ymin: real, xmax: real, ymax: real)

  function Max(a: real, b: real): real { if a < b then b else a }

  function Min(a: real, b: real): real { if a < b then a else b }

  function Abs(v: real): (a: real)
    ensures 0.0 <= a && (a == v || a == -v)
  {
    if v < 0.0 then -v else v
  }

  /** The polygon shapely's `box` builds, held by its `bounds`: whatever
      order the corners are passed in, the bounds are sorted. */
  type Geometry = r: Rect | r.xmin <= r.xmax && r.ymin <= r.ymax witness Rect(0.0, 0.0, 0.0, 0.0)

  /** `box(xmin, ymin, xmax, ymax)`: the polygon through the four corners.
      Corners passed in order are kept; corners passed swapped are sorted,
      so the extent is never negative. */
  function ShapelyBox(r: Rect): (g: Geometry)
    ensures r.xmin <= r.xmax && r.ymin <= r.ymax ==> g == r
    ensures g.xmin + g.xmax == r.xmin + r.xmax && g.ymin + g.ymax == r.ymin + r.ymax
    ensures g.xmax - g.xmin == Abs(r.xmax - r.xmin) && g.ymax - g.ymin == Abs(r.ymax - r.ymin)
  {
    Rect(Min(r.xmin, r.xmax), Min(r.ymin, r.ymax), Max(r.xmin, r.xmax), Max(r.ymin, r.ymax))
  }

  /** A box with its extents made non-negative: what comes back from a
      shapely polygon built from its corners. */
  function Upright(b: YoloBox): (u: YoloBox)
    ensures 0.0 <= u.w && 0.0 <= u.h
    ensures u.x == b.x && u.y == b.y
    ensures 0.0 <= b.w && 0.0 <= b.h ==> u == b
  {
    YoloBox(b.x, b.y, Abs(b.w), Abs(b.h))
  }

  /** First half of `yolo_to_torch_boxes`: centre and width scaled by the
      image width, centre and height scaled by the image height. */
  function Scale(b: YoloBox, imageWidth: real, imageHeight: real): YoloBox
  {
    YoloBox(b.x * imageWidth, b.y * imageHeight, b.w * imageWidth, b.h * imageHeight)
  }

  /** Second half of `yolo_to_torch_boxes`: an absolute centre box to its
      corners, half the extent on either side of the centre. */
  function CentreToCorners(b: YoloBox): Rect
  {
    Rect(b.x - b.w / 2.0, b.y - b.h / 2.0, b.x + b.w / 2.0, b.y + b.h / 2.0)
  }

  /** One row of `yolo_to_torch_boxes`: the corners of a normalised box in
      an image of the given size. */
  function ToCorners(b: YoloBox, imageWidth: real, imageHeight: real): Rect
  {
    CentreToCorners(Scale(b, imageWidth, imageHeight))
  }

  /** No clamping to the image is applied: the rectangle's extent and
      midpoint are exactly the scaled box's extent and centre. */
  lemma ToCornersExtent(b: YoloBox, imageWidth: real, imageHeight: real)
    ensures var r := ToCorners(b, imageWidth, imageHeight);
      r.xmax - r.xmin == b.w * imageWidth && r.ymax - r.ymin == b.h * imageHeight &&
      (r.xmin + r.xmax) / 2.0 == b.x * imageWidth && (r.ymin + r.ymax) / 2.0 == b.y * imageHeight
  {
  }

  /** In an image of non-negative size, the polygon built from a box's
      corners is the corner rectangle of the box with its extents made
      non-negative. */
  lemma ShapelyBoxOfCorners(b: YoloBox, imageWidth: real, imageHeight: real)
    requires 0.0 <= imageWidth && 0.0 <= imageHeight
    ensures ShapelyBox(ToCorners(b, imageWidth, imageHeight)) == ToCorners(Upright(b), imageWidth, imageHeight)
  {
    AxisSorted(b.x, b.w, imageWidth);
    AxisSorted(b.y, b.h, imageHeight);
  }

  /** One axis of ShapelyBoxOfCorners. */
  lemma AxisSorted(c: real, e: real, k: real)
    requires 0.0 <= k
    ensures Min(c * k - e * k / 2.0, c * k + e * k / 2.0) == c * k - Abs(e) * k / 2.0
    ensures Max(c * k - e * k / 2.0, c * k + e * k / 2.0) == c * k + Abs(e) * k / 2.0
  {
    if e < 0.0 {
      assert Abs(e) * k == -(e * k);
      assert e * k <= 0.0;
    } else {
      assert 0.0 <= e * k;
    }
  }

  /** One row of `convert_to_yolo_batch`: a rectangle back to a normalised
      centre box, midpoint and extent divided by the image size. */
  function ToYolo(r: Rect, imgWidth: real, imgHeight: real): YoloBox
    requires imgWidth != 0.0 && imgHeight != 0.0
  {
    var widths := r.xmax - r.xmin;
    var heights := r.ymax - r.ymin;
    var cx := (r.xmin + r.xmax) / 2.0;
    var cy := (r.ymin + r.ymax) / 2.0;
    YoloBox(cx / imgWidth, cy / imgHeight, widths / imgWidth, heights / imgHeight)
  }

  /** The normalised box times the image size is the rectangle's midpoint
      and extent. */
  lemma ToYoloExtent(r: Rect, imgWidth: real, imgHeight: real)
    requires imgWidth != 0.0 && imgHeight != 0.0
    ensures var b := ToYolo(r, imgWidth, imgHeight);
      b.x * imgWidth == (r.xmin + r.xmax) / 2.0 && b.y * imgHeight == (r.ymin + r.ymax) / 2.0 &&
      b.w * imgWidth == r.xmax - r.xmin && b.h * imgHeight == r.ymax - r.ymin
  {
  }

  /** `yolo_to_torch_boxes` on a whole table of boxes, row by row. */
  function TorchBoxes(boxes: seq<YoloBox>, imageWidth: real, imageHeight: real): (r: seq<Rect>)
    ensures |r| == |boxes|
  {
    seq(|boxes|, k requires 0 <= k < |boxes| => ToCorners(boxes[k], imageWidth, imageHeight))
  }

  /** `convert_to_yolo_batch` on a whole table of rectangles, row by row. */
  function ConvertToYoloBatch(boxes: seq<Rect>, imgWidth: real, imgHeight: real): (r: seq<YoloBox>)
    requires imgWidth != 0.0 && imgHeight != 0.0
    ensures |r| == |boxes|
  {
    seq(|boxes|, k requires 0 <= k < |boxes| => ToYolo(boxes[k], imgWidth, imgHeight))
  }

  /** Corners, then back to YOLO with the same image size: the original box
      exactly. */
  lemma {:induction false} YoloRoundTrip(b: YoloBox, width: real, height: real)
    requires width != 0.0 && height != 0.0
    ensures ToYolo(ToCorners(b, width, height), width, height) == b
  {
    var r := ToCorners(b, width, height);
    var b' := ToYolo(r, width, height);
    ToCornersExtent(b, width, height);
    ToYoloExtent(r, width, height);
    CancelFactor(b'.x, b.x, width);
    CancelFactor(b'.y, b.y, height);
    CancelFactor(b'.w, b.w, width);
    CancelFactor(b'.h, b.h, height);
  }

  /** YOLO, then back to corners with the same image size: the original
      rectangle exactly. */
  lemma {:induction false} CornersRoundTrip(r: Rect, width: real, height: real)
    requires width != 0.0 && height != 0.0
    ensures ToCorners(ToYolo(r, width, height), width, height) == r
  {
    var b := ToYolo(r, width, height);
    var r' := ToCorners(b, width, height);
    ToYoloExtent(r, width, height);
    ToCornersExtent(b, width, height);
    assert r'.xmax - r'.xmin == r.xmax - r.xmin;
    assert r'.xmin + r'.xmax == r.xmin + r.xmax;
    assert r'.ymax - r'.ymin == r.ymax - r.ymin;
    assert r'.ymin + r'.ymax == r.ymin + r.ymax;
  }

  lemma CancelFactor(a: real, b: real, k: real)
    requires k != 0.0 && a * k == b * k
    ensures a == b
  {
    assert (a - b) * k == 0.0;
  }

  /** The batch conversions invert each other on whole tables. */
  lemma {:induction false} BatchRoundTrip(boxes: seq<YoloBox>, width: real, height: real)
    requires width != 0.0 && height != 0.0
    ensures ConvertToYoloBatch(TorchBoxes(boxes, width, height), width, height) == boxes
  {
    var back := ConvertToYoloBatch(TorchBoxes(boxes, width, height), width, height);
    forall k | 0 <= k < |boxes|
      ensures back[k] == boxes[k]
    {
      YoloRoundTrip(boxes[k], width, height);
    }
  }

  /** `yolo_to_torch_boxes` as the source runs it: the input is cloned, the
      clone's columns are scaled in place, and the corners are written into a
      fresh zero buffer. The caller's array is not modified. */
  method YoloToTorchBoxes(yoloBoxes: array<YoloBox>, imageWidth: real, imageHeight: real)
    returns (torchBoxes: array<Rect>)
    ensures fresh(torchBoxes)
    ensures torchBoxes[..] == TorchBoxes(yoloBoxes[..], imageWidth, imageHeight)
  {
    var n := yoloBoxes.Length;
    ghost var original := yoloBoxes[..];
    var boxes := new YoloBox[n];
    for k := 0 to n
      invariant forall j :: 0 <= j < k ==> boxes[j] == original[j]
    {
      boxes[k] := yoloBoxes[k];
    }
    for k := 0 to n
      invariant forall j :: 0 <= j < k ==> boxes[j] == Scale(original[j], imageWidth, imageHeight)
      invariant forall j :: k <= j < n ==> boxes[j] == original[j]
    {
      boxes[k] := Scale(boxes[k], imageWidth, imageHeight);
    }
    torchBoxes := new Rect[n];
    for k := 0 to n
      invariant forall j :: 0 <= j < n ==> boxes[j] == Scale(original[j], imageWidth, imageHeight)
      invariant forall j :: 0 <= j < k ==> torchBoxes[j] == ToCorners(original[j], imageWidth, imageHeight)
    {
      torchBoxes[k] := CentreToCorners(boxes[k]);
    }
    assert torchBoxes[..] == TorchBoxes(original, imageWidth, imageHeight);
  }
}
