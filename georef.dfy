/** The box georeferencer (`YoloBoxToTorchIterDataPipe`): each image is
    paired with the label table at the same position, and each table row
    becomes a corner rectangle in the image's pixel units. */
module Georef {
  import opened Boxes
  import opened Tables

  /** `img.shape[2]`: the width the georeferencer scales by. */
  function ImageWidth(img: Raster): (width: real)
    ensures 0.0 <= width
  {
    img.shape.cols as real
  }

  /** `img.shape[1]`: the height the georeferencer scales by. */
  function ImageHeight(img: Raster): (height: real)
    ensures 0.0 <= height
  {
    img.shape.rows as real
  }

  /** The geometry table built for one label table: the corners of every
      row's box, made into a shapely polygon, with the row's class. */
  function LabelToGeo(table: seq<Row>, width: real, height: real): (g: GeoTable)
    ensures |g| == |table|
    ensures forall k :: 0 <= k < |g| ==> g[k].c == table[k].c
  {
    var boxes := TorchBoxes(seq(|table|, k requires 0 <= k < |table| => table[k].Box()), width, height);
    seq(|table|, k requires 0 <= k < |table| => GeoRow(ShapelyBox(boxes[k]), table[k].c))
  }

  /** One yielded pair: the image and its label table as geometries. */
  function GeoPair(img: Raster, table: seq<Row>): (Raster, GeoTable)
  {
    (img, LabelToGeo(table, ImageWidth(img), ImageHeight(img)))
  }

  /** The georeferencer's `__iter__` over `zip(images, labels)`: as many pairs
      as the shorter input, the i-th image with the i-th table. */
  function Georeference(images: seq<Raster>, labels: seq<seq<Row>>): (out: seq<(Raster, GeoTable)>)
    ensures |out| == if |images| < |labels| then |images| else |labels|
    ensures forall i :: 0 <= i < |out| ==> out[i] == GeoPair(images[i], labels[i])
  {
    if images == [] || labels == [] then []
    else [GeoPair(images[0], labels[0])] + Georeference(images[1..], labels[1..])
  }

  /** A geometry table keeps its label table's length, classes and row
      order (an empty label table gives an empty geometry table), and
      reading each polygon back with the same image size gives that row's
      box, with a negative width or height read back as its magnitude. */
  lemma LabelToGeoRows(table: seq<Row>, width: real, height: real)
    requires 0.0 < width && 0.0 < height
    ensures |LabelToGeo(table, width, height)| == |table|
    ensures forall k :: 0 <= k < |table| ==>
      LabelToGeo(table, width, height)[k].c == table[k].c &&
      ToYolo(LabelToGeo(table, width, height)[k].geometry, width, height) == Upright(table[k].Box())
  {
    forall k | 0 <= k < |table|
      ensures ToYolo(LabelToGeo(table, width, height)[k].geometry, width, height) == Upright(table[k].Box())
    {
      ShapelyBoxOfCorners(table[k].Box(), width, height);
      YoloRoundTrip(Upright(table[k].Box()), width, height);
    }
  }

  /** Each polygon is the row's box around its scaled centre: extent
      |w|·W by |h|·H, midpoint (x·W, y·H). */
  lemma LabelToGeoGeometry(table: seq<Row>, width: real, height: real, k: nat)
    requires k < |table|
    ensures var g := LabelToGeo(table, width, height)[k].geometry;
      g.xmax - g.xmin == Abs(table[k].w * width) && g.ymax - g.ymin == Abs(table[k].h * height) &&
      g.xmin + g.xmax == 2.0 * table[k].x * width && g.ymin + g.ymax == 2.0 * table[k].y * height
  {
    ToCornersExtent(table[k].Box(), width, height);
  }
}
