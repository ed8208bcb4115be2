/** The values that flow between the pipeline's stages: annotation rows,
    geometry rows and raster tiles. Tables are sequences of rows. */
module Tables {
  import opened Boxes

  /** One row of an image annotation table: columns file, c, x, y, w, h. */
  datatype Row = Row(file: string, c: int, x: real, y: real, w: real, h: real)
  {
    /** The row's normalised box, the columns ["x", "y", "w", "h"]. */
    function Box(): YoloBox
    {
      YoloBox(x, y, w, h)
    }
  }

  /** One row of a geometry annotation table: a box polygon and its class. */
  datatype GeoRow = GeoRow(geometry: Geometry, c: int)

  type GeoTable = seq<GeoRow>

  /** A raster's `shape`: bands, then rows along y, then columns along x. */
  datatype Shape = Shape(bands: nat, rows: nat, cols: nat)

  /** A raster tile as the pipeline sees it: its shape, its x and y
      coordinate labels, the x/y offsets of its affine transform, its
      bounding box (left, bottom, right, top) and its pixel values, which
      every stage passes on untouched. */
  datatype Raster = Raster(shape: Shape, xs: seq<real>, ys: seq<real>,
                           xoff: real, yoff: real, bounds: Rect, values: seq<real>)
}
