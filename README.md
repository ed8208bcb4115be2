# YOLO annotation chipping pipeline, modelled in Dafny

This project models the datapipes of `uavgeo/datapipes/yolo_pipe.py`. They turn
YOLO-style box annotations and rasters into chip images with per-chip label
files. The pipeline has four stages. The model writes each stage as a function
or method over sequences and proves what each stage promises.

1. **Annotation parser** (`YoloLoaderIterDataPipe`, module `Loader`). It takes
   `(file, [c, x, y, w, h])` records and yields one table per distinct file.
   Files come in order of first appearance, and each table keeps its rows in
   arrival order. `ParseYolo` is a method with the source's loops: grow the
   frame, collect the unique files, select each file's rows. It is proved equal
   to `GroupByFile`. The lemmas prove that the files are distinct and cover
   every record, that they come in first-seen order, and that each table is
   non-empty and holds exactly its file's rows (with multiplicity, in order).
   They also prove that the row counts add up to the number of records. A
   source with no records leaves the frame without a `file` column, so the
   code raises `KeyError` before yielding anything. The model returns
   `NoFileColumn` there.
2. **Box georeferencer** (`YoloBoxToTorchIterDataPipe`, modules `Boxes` and
   `Georef`). `yolo_to_torch_boxes` maps a normalised centre box to corners in
   an image of width `shape[2]` and height `shape[1]`, with no clamping.
   `YoloToTorchBoxes` models it on arrays: it clones the input, scales the
   clone in place and fills a fresh buffer, and the caller's array is left
   unchanged. Each row's corners become a shapely `box` polygon, whose
   bounds are always sorted. A row with a negative width or height
   therefore becomes the polygon of its magnitude. The pairing of images
   with label tables is `zip`: the output is as long as the shorter input,
   and pair i joins image i with table i.
3. **Chipper** (`GPDGeomRectangleClipperIterDataPipe`, module `Chipper`). For
   each raster and each of its windows, the table is clipped to the window's
   bounds. Then the table and the window's coordinates are translated by minus
   the window's transform offsets. The windowing generator is a parameter that
   gives each raster's windows. The lemmas prove the output layout (position
   `WindowCount(source[..i]) + j` holds window j of raster i) and that
   chipping does not interleave rasters. They prove what the clip keeps, drops
   and cuts, and that every window is in its own local frame.
4. **Persister** (`ImageLabelSaverIterDataPipe`, module `Saver`). A counter
   numbers the written pairs. Pairs with empty tables are skipped when
   `skip_empty` is set, and the counter advances only on writes. File names
   are `images/<stem><ext>` and `labels/<stem>.txt`, where the stem is
   `"{:07d}".format(i)`. The label file has one line per row:
   `convert_to_yolo_batch` applied to the row's rectangle, with the row's
   class. Each written pair is yielded again unchanged.

Module `Pipeline` connects the stages. With the saver's shape reading
corrected (width `shape[2]`, height `shape[1]`), georeferencing and then saving
against the same raster gives back each annotation exactly, with a negative
extent written back as its magnitude. The same holds end to end through the
chipper for a whole-raster window at offset (0, 0), for boxes that lie inside
the image with positive width and height (`Pipeline.WholeWindowRoundTrip`); a
box crossing the image's edge is written back cut to the image. With the shape
read as written, the round trip holds only for square rasters; see the finding
below. All arithmetic is over `real`.

## Model

| member | source | states |
|---|---|---|
| `Boxes.Scale` | uavgeo/datapipes/yolo_pipe.py:165-171 | the first half of `yolo_to_torch_boxes`: centre and width scaled by the image width, centre and height by the image height |
| `Boxes.CentreToCorners` | uavgeo/datapipes/yolo_pipe.py:173-178 | the second half: an absolute centre box to its corners, half the extent on either side |
| `Boxes.ToCorners` | uavgeo/datapipes/yolo_pipe.py:162-180 | one row of `yolo_to_torch_boxes`: centre and extent scaled by (W, H), then half the extent on either side of the centre; its meaning is stated by `Boxes.ToCornersExtent` |
| `Boxes.TorchBoxes` | uavgeo/datapipes/yolo_pipe.py:162-180 | `yolo_to_torch_boxes` on a whole table: one rectangle per box, in box order |
| `Boxes.ToYolo` | uavgeo/datapipes/yolo_pipe.py:372-388 | one row of `convert_to_yolo_batch`: midpoint and extent divided by (W, H); its meaning is stated by `Boxes.ToYoloExtent` |
| `Boxes.ConvertToYoloBatch` | uavgeo/datapipes/yolo_pipe.py:360-388 | `convert_to_yolo_batch` on a whole table: one box per rectangle, in order |
| `Boxes.ShapelyBox` | uavgeo/datapipes/yolo_pipe.py:153 | shapely's `box`: corners passed in order are kept; otherwise the bounds are sorted, with the same midpoint and the extent's magnitude |
| `Boxes.ShapelyBoxOfCorners` | uavgeo/datapipes/yolo_pipe.py:149-153 | in an image of non-negative size, the polygon of a box's corners is the corner rectangle of the box with non-negative extents |
| `Georef.ImageWidth` | uavgeo/datapipes/yolo_pipe.py:149 | the width the georeferencer scales by, `img.shape[2]` (columns); never negative |
| `Georef.ImageHeight` | uavgeo/datapipes/yolo_pipe.py:149 | the height the georeferencer scales by, `img.shape[1]` (rows); never negative |
| `Boxes.ToCornersExtent` | uavgeo/datapipes/yolo_pipe.py:166-178 | corners have extent (w·W, h·H) and midpoint (x·W, y·H); no clamping |
| `Boxes.ToYoloExtent` | uavgeo/datapipes/yolo_pipe.py:373-384 | the normalised box times (W, H) is the rectangle's midpoint and extent |
| `Boxes.YoloRoundTrip` | uavgeo/datapipes/yolo_pipe.py:162-180 | converting to corners and back with the same non-zero W, H gives the original box exactly |
| `Boxes.CornersRoundTrip` | uavgeo/datapipes/yolo_pipe.py:360-388 | converting to YOLO and back with the same non-zero W, H gives the original rectangle exactly |
| `Boxes.BatchRoundTrip` | uavgeo/datapipes/yolo_pipe.py:360-388 | `convert_to_yolo_batch` undoes `yolo_to_torch_boxes` on a whole table |
| `Boxes.YoloToTorchBoxes` | uavgeo/datapipes/yolo_pipe.py:162-180 | returns a fresh array whose row k is the corners of input row k; the input array is not modified |
| `Loader.ParseYolo` | uavgeo/datapipes/yolo_pipe.py:78-93 | with no records the missing `file` column fails (`NoFileColumn`); otherwise the yielded tables are exactly one selection per unique file, in unique-file order |
| `Loader.ToRow` | uavgeo/datapipes/yolo_pipe.py:81-89 | the one-row frame of a record: its file name and the class and box of its typed box part |
| `Loader.Rows` | uavgeo/datapipes/yolo_pipe.py:81-90 | the grown frame: one row per record, in arrival order, each with its record's file |
| `Loader.UniqueFiles` | uavgeo/datapipes/yolo_pipe.py:91 | `df["file"].unique()`: each file once, in order of first appearance; never more files than rows |
| `Loader.GroupByFile` | uavgeo/datapipes/yolo_pipe.py:91-93 | one table per unique file, each the rows of that file; no more tables than rows |
| `Loader.Select` | uavgeo/datapipes/yolo_pipe.py:93 | the row-by-row selection equals the rows of that file in arrival order |
| `Loader.RowsOf` | uavgeo/datapipes/yolo_pipe.py:93 | every selected row has the selected file; the selection is no longer than the input |
| `Loader.UniqueFilesDistinct` | uavgeo/datapipes/yolo_pipe.py:91 | no file gets two tables |
| `Loader.UniqueFilesCover` | uavgeo/datapipes/yolo_pipe.py:91 | a file gets a table if and only if some record names it |
| `Loader.UniqueFilesFirstSeenOrder` | uavgeo/datapipes/yolo_pipe.py:91-93 | an earlier table's file first occurs strictly before a later table's file |
| `Loader.RowsOfAppend` | uavgeo/datapipes/yolo_pipe.py:93 | selection keeps arrival order: it distributes over concatenation |
| `Loader.RowsOfCount` | uavgeo/datapipes/yolo_pipe.py:93 | a table holds each row of its file as often as the input does, and no row of another file |
| `Loader.RowsOfNonEmpty` | uavgeo/datapipes/yolo_pipe.py:91-93 | the table of every unique file has at least one row |
| `Loader.GroupByFileTotal` | uavgeo/datapipes/yolo_pipe.py:78-93 | the tables' row counts sum to the number of records |
| `Loader.GroupByFileTables` | uavgeo/datapipes/yolo_pipe.py:91-93 | one table per unique file, each non-empty, all its rows sharing that file |
| `Georef.Georeference` | uavgeo/datapipes/yolo_pipe.py:146-159 | zip pairing: min(#images, #tables) pairs, pair i is image i with table i georeferenced by image i's shape |
| `Georef.GeoPair` | uavgeo/datapipes/yolo_pipe.py:146-159 | one yielded pair: the image unchanged with its label table made into polygons at the image's own width and height |
| `Georef.LabelToGeo` | uavgeo/datapipes/yolo_pipe.py:148-158 | the geometry table for one label table: one polygon per row, in row order, with the row's class |
| `Georef.LabelToGeoRows` | uavgeo/datapipes/yolo_pipe.py:148-158 | one polygon per label row, in row order, with the row's class; each polygon converts back to the row's box, a negative extent as its magnitude |
| `Georef.LabelToGeoGeometry` | uavgeo/datapipes/yolo_pipe.py:149-153 | polygon k has extent (\|w·W\|, \|h·H\|) and midpoint (x·W, y·H) of row k |
| `Chipper.Intersect` | uavgeo/datapipes/yolo_pipe.py:244 | the cut rectangle lies in both the mask and the original, and has area when they overlap |
| `Chipper.Overlaps` | uavgeo/datapipes/yolo_pipe.py:244 | the rows the clip keeps: the rectangle and the window share an area (positive extent on both axes) |
| `Chipper.ClipTable` | uavgeo/datapipes/yolo_pipe.py:243-244 | every clipped rectangle lies inside the window's bounds; no rows are added |
| `Chipper.ClipKeeps` | uavgeo/datapipes/yolo_pipe.py:244 | a row that overlaps the window appears, cut to the intersection, with its class |
| `Chipper.ClipOnlyOverlapping` | uavgeo/datapipes/yolo_pipe.py:244 | every clipped row is an overlapping input row cut to the window |
| `Chipper.ClipAppend` | uavgeo/datapipes/yolo_pipe.py:244 | clipping keeps row order |
| `Chipper.ClipDropsOutside` | uavgeo/datapipes/yolo_pipe.py:244 | a row wholly outside the window leaves the clipped table as if it were absent |
| `Chipper.ClipInside` | uavgeo/datapipes/yolo_pipe.py:244 | a rectangle with area inside the window is kept unchanged |
| `Chipper.TranslateKeepsSize` | uavgeo/datapipes/yolo_pipe.py:250-253 | translation keeps width and height, and the opposite translation undoes it |
| `Chipper.Translate` | uavgeo/datapipes/yolo_pipe.py:253 | `translate(xoff, yoff)` of one rectangle: both corners moved by (dx, dy); its meaning is stated by `Chipper.TranslateKeepsSize` |
| `Chipper.TranslateTable` | uavgeo/datapipes/yolo_pipe.py:253 | every geometry of the table translated; length and classes kept |
| `Chipper.ShiftCoords` | uavgeo/datapipes/yolo_pipe.py:255 | `assign_coords` moves the coordinate labels and keeps the shape, the values and the number of labels |
| `Chipper.ChipOne` | uavgeo/datapipes/yolo_pipe.py:243-255 | one window's pair: the window keeps its shape and has offsets (0, 0); its table has no more rows than the input |
| `Chipper.ChipsOf` | uavgeo/datapipes/yolo_pipe.py:242-256 | the inner loop: one chipped pair per window of one raster, in window order, all with that raster's table |
| `Chipper.ChipPairs` | uavgeo/datapipes/yolo_pipe.py:241-256 | one output pair per window |
| `Chipper.ChipPairsAt` | uavgeo/datapipes/yolo_pipe.py:241-256 | output position `WindowCount(source[..i]) + j` is window j of raster i with table i, clipped and re-originated |
| `Chipper.ChipPairsAppend` | uavgeo/datapipes/yolo_pipe.py:241-242 | all windows of one raster come before the next raster's windows |
| `Chipper.ChipLocalFrame` | uavgeo/datapipes/yolo_pipe.py:248-255 | a chip's offsets become 0; its coordinates and bounds move by minus its offsets; shape and values are kept; every geometry lies in the local bounds |
| `Chipper.ChipRows` | uavgeo/datapipes/yolo_pipe.py:243-253 | every row of a chip's table is an overlapping input row, cut to the window and translated by minus its offsets |
| `Saver.Stem` | uavgeo/datapipes/yolo_pipe.py:333 | `"{:07d}".format(i)`: at least seven characters, all digits |
| `Saver.Join` | uavgeo/datapipes/yolo_pipe.py:324-336 | POSIX `os.path.join` of two parts; its meaning is stated by `Saver.JoinParts` |
| `Saver.JoinParts` | uavgeo/datapipes/yolo_pipe.py:324-336 | a joined path ends with its last part, and starts with its first part when the last part is relative |
| `Saver.ImageFileName` | uavgeo/datapipes/yolo_pipe.py:324-335 | `<output>/images/<stem><ext>` joined the POSIX way; distinctness is stated by `Saver.FileNamesDistinct` |
| `Saver.LabelFileName` | uavgeo/datapipes/yolo_pipe.py:328-336 | `<output>/labels/<stem>.txt` joined the POSIX way; distinctness is stated by `Saver.FileNamesDistinct` |
| `Saver.StemRoundTrip` | uavgeo/datapipes/yolo_pipe.py:333 | a stem is all digits and reads back as its number |
| `Saver.StemLength` | uavgeo/datapipes/yolo_pipe.py:333 | stems of numbers below 10^7 are exactly seven digits |
| `Saver.StemInjective` | uavgeo/datapipes/yolo_pipe.py:333 | different numbers get different stems |
| `Saver.FileNamesDistinct` | uavgeo/datapipes/yolo_pipe.py:324-336 | different numbers name different image files and different label files |
| `Saver.LabelLinesRows` | uavgeo/datapipes/yolo_pipe.py:346-357 | one line per row in row order, with the row's class; each line's box converts back to the row's rectangle |
| `Saver.WriteYoloBoxesToFile` | uavgeo/datapipes/yolo_pipe.py:390-404 | one line per box, in box order, with the label at the same position |
| `Saver.Bounds` | uavgeo/datapipes/yolo_pipe.py:351 | `gdf.geometry.bounds`: one sorted rectangle per row, in row order |
| `Saver.LabelLinesFor` | uavgeo/datapipes/yolo_pipe.py:351-357 | row k's class with row k's bounds converted by `convert_to_yolo_batch` at the given width and height |
| `Saver.LabelLinesAsWritten` | uavgeo/datapipes/yolo_pipe.py:346-357 | as written: one line per row with its class, the box normalised by width `shape[1]` and height `shape[2]` |
| `Saver.LabelLines` | uavgeo/datapipes/yolo_pipe.py:346-357 | corrected: one line per row with its class, the box normalised by width `shape[2]` and height `shape[1]` |
| `Saver.SaveGdfToYolo` | uavgeo/datapipes/yolo_pipe.py:346-357 | the lines written are the table's polygons normalised by the raster's width and height, read with the corrected shape reading (width `shape[2]`, height `shape[1]`) |
| `Saver.Skipped` | uavgeo/datapipes/yolo_pipe.py:338 | a pair is skipped exactly when its table has no rows and `skip_empty` is set; its meaning over a stream is stated by `Saver.KeptMembers` |
| `Saver.Kept` | uavgeo/datapipes/yolo_pipe.py:338-339 | the pairs that are written: none of them is an empty table under `skip_empty`, and there are no more of them than arrive |
| `Saver.WrittenFor` | uavgeo/datapipes/yolo_pipe.py:333-342 | the files written for the pair numbered i: image and label file names from stem i, the raster, and the label lines under the corrected shape reading |
| `Saver.SaveImagesAndLabels` | uavgeo/datapipes/yolo_pipe.py:321-344 | yields exactly the unskipped pairs, unchanged and in order; the k-th written pair uses stem k; label lines use the corrected shape reading (width `shape[2]`, height `shape[1]`) |
| `Saver.KeptAll` | uavgeo/datapipes/yolo_pipe.py:338-344 | without `skip_empty`, every pair is written and yielded again |
| `Saver.KeptMembers` | uavgeo/datapipes/yolo_pipe.py:338-344 | a pair is written if and only if it arrives and is not an empty table under `skip_empty` |
| `Saver.KeptAppend` | uavgeo/datapipes/yolo_pipe.py:332-344 | skipping keeps arrival order |
| `Saver.KeptCount` | uavgeo/datapipes/yolo_pipe.py:338-343 | the number of written pairs is the number of arrivals minus the number skipped |
| `Saver.WrittenListSnoc` | uavgeo/datapipes/yolo_pipe.py:341-343 | writing one more pair appends its files under the next number, leaving earlier files unchanged |
| `Saver.WrittenNamesDistinct` | uavgeo/datapipes/yolo_pipe.py:333-343 | no two written pairs share an image file or a label file |
| `Pipeline.GeorefSaveRoundTrip` | uavgeo/datapipes/yolo_pipe.py:146-159 | georeferencing a table and then saving it against the same raster writes each row's class and box, exactly when its extents are non-negative and otherwise with their magnitudes; with the saver's shape reading corrected (width `shape[2]`, height `shape[1]`); the saving half is `save_gdf_to_yolo` at lines 346-357 |
| `Pipeline.AsWrittenRoundTripIffSquare` | uavgeo/datapipes/yolo_pipe.py:348-349 | with the saver's reading of the shape as written, a box comes back unchanged if and only if its extents are non-negative and the raster is square or the box is all zeros |
| `Pipeline.SwappedRoundTrip` | uavgeo/datapipes/yolo_pipe.py:348-349 | the same on reals: corners built with width cols and read back with width rows |
| `Pipeline.AsWrittenNonSquareCounterexample` | uavgeo/datapipes/yolo_pipe.py:348-349 | a concrete 2×4 raster on which the saver as written gives a different box and the corrected saver gives the original |
| `Pipeline.WholeWindowRoundTrip` | uavgeo/datapipes/yolo_pipe.py:241-256 | georeference, chip with a whole-raster window at offset (0, 0), then save: boxes inside the image come back exactly, in order; with the saver's shape reading corrected (width `shape[2]`, height `shape[1]`) |

## Left out

- The optional-import guards and the `ModuleNotFoundError` checks in the constructors. They test the environment, not the data.
- Converting the record fields with `int(...)` and `float(...)`. The model takes each record's box already typed (`Loader.RawBox`).
- The internals of pandas, geopandas, shapely, torch and xarray. Tables are sequences of rows, geometries are axis-aligned rectangles, and the `[N, 4]` tensor of `yolo_to_torch_boxes` is an array of box rows rather than four columns.
- `Chipper.Overlaps`, `Chipper.ClipTable`: geopandas' clip in general. The model keeps a row when its rectangle overlaps the mask with positive area, and it keeps row order. It does not model the rows that only touch the window's edge, nor the order in which geopandas' spatial index returns rows. `Chipper.Overlaps` is false for a zero-width or zero-height rectangle inside the mask, so the model drops such a row, whereas the source's `clip` appears to keep it (its bounds then give a label line with a zero extent, and under `skip_empty` a chip holding only such rows is written by the source but skipped by the model).
- The xbatcher window generator and its overlap and remainder policy. The model takes it as a parameter that gives each raster's windows.
- rasterio's `bounds` and `transform` beyond the x/y offsets. Each window carries its own bounds and offsets. `Chipper.ShiftCoords` moves the offsets and the bounds along with the coordinate labels, because rioxarray derives them from the coordinates.
- Rasters with only two dimensions (y, x). `Tables.Shape` always has three, (band, y, x). For a 2-D raster the code's `shape[2]` at lines 149 and 348 raises `IndexError`, which the model does not capture.
- Disk I/O: creating directories, `rio.to_raster`, and opening and writing the label file. Written files are a list of (image name, raster, label name, lines). I/O failures and partial writes are not modelled.
- The decimal rendering of the floats in a label line. A line is its class and its box (`Saver.LabelLine`).
- Lazy, pull-based iteration and the torchdata composition framework. Each stage is a function or method from whole input sequences to whole output sequences.
- Floating-point rounding. All arithmetic is over reals.
- `Boxes.ToYolo`: requires a non-zero width and height. torch would instead produce infinities or NaNs for a zero-sized image.
- `Boxes.ConvertToYoloBatch`: requires a non-zero width and height, for the same reason as `Boxes.ToYolo`.
- `Boxes.ToYoloExtent`: requires a non-zero width and height, for the same reason as `Boxes.ToYolo`.
- `Saver.LabelLinesFor`: requires a non-zero width and height, for the same reason as `Boxes.ToYolo`.
- `Saver.LabelLinesAsWritten`: requires a shape with rows and columns, for the same reason as `Boxes.ToYolo`.
- `Saver.LabelLines`: requires a shape with rows and columns, for the same reason as `Boxes.ToYolo`.
- `Saver.SaveGdfToYolo`: requires a shape with rows and columns, for the same reason as `Boxes.ToYolo`; the source only divides, so an empty table with a zero-sized shape would not fail there.
- `Saver.SaveImagesAndLabels`: requires every raster to have rows and columns, even a raster whose pair is skipped or whose table is empty. The source divides only for non-empty tables, and a zero size gives infinities in torch, not an error.

## Findings

| source | as written | input that shows it | evidently intended | confidence | as-written member | corrected member |
|---|---|---|---|---|---|---|
| uavgeo/datapipes/yolo_pipe.py:348-349 | the saver normalises by `height = shape[2]` (columns) and `width = shape[1]` (rows), the reverse of the georeferencer at line 149 | a raster of shape (1, 2, 4) with a class-3 box at (0.5, 0.5, 0.5, 0.5) is written back as (1.0, 0.25, 1.0, 0.25) | width from `shape[2]` and height from `shape[1]`, as at line 149, so every box comes back exactly | high; not executed | `Pipeline.AsWrittenNonSquareCounterexample` (over `Saver.LabelLinesAsWritten`) | `Pipeline.GeorefSaveRoundTrip` (over `Saver.LabelLines`, which `Saver.SaveGdfToYolo` uses) |

With the shape read as written, the round trip is exact only for square
chips or all-zero boxes (`Pipeline.AsWrittenRoundTripIffSquare`). The saver
method models the corrected reading.
