/** The persister (`ImageLabelSaverIterDataPipe`): each written pair gets the
    next seven-digit number; its raster goes to `images/<number><ext>` and
    its table, converted back to normalised YOLO boxes, to
    `labels/<number>.txt`, one line per row. Files are modelled as the list
    of what each write leaves behind. */
module Saver {
  import opened Boxes
  import opened Tables

  /** One label-file line `"<label> <cx> <cy> <w> <h>\n"`; the decimal
      rendering of the four floats is not modelled. */
  datatype LabelLine = LabelLine(cls: int, box: YoloBox)

  /** What writing one pair leaves on disk: the image file and the raster
      written to it, the label file and its lines. */
  datatype Written = Written(imageFile: string, image: Raster, labelFile: string, lines: seq<LabelLine>)

  // ---------------------------------------------------------------------
  // File-name stems: "{:07d}".format(i)
  // ---------------------------------------------------------------------

  predicate IsDigit(ch: char) { '0' <= ch <= '9' }

  function DigitChar(d: nat): (ch: char)
    requires d < 10
    ensures IsDigit(ch) && ch as int - '0' as int == d
  {
    ('0' as int + d) as char
  }

  /** The decimal digits of n, without leading zeros ("0" for zero). */
  function Decimal(n: nat): (s: string)
    ensures |s| >= 1
    ensures forall k :: 0 <= k < |s| ==> IsDigit(s[k])
  {
    if n < 10 then [DigitChar(n)] else Decimal(n / 10) + [DigitChar(n % 10)]
  }

  function Zeros(k: nat): (s: string)
    ensures |s| == k && forall j :: 0 <= j < k ==> s[j] == '0'
  {
    seq(k, _ => '0')
  }

  /** `"{:07d}".format(i)`: the decimal digits of i, padded on the left with
      zeros to seven characters; a number with more digits is not cut. */
  function Stem(i: nat): (s: string)
    ensures 7 <= |s|
    ensures forall k :: 0 <= k < |s| ==> IsDigit(s[k])
  {
    var d := Decimal(i);
    if |d| < 7 then Zeros(7 - |d|) + d else d
  }

  /** The number a string of decimal digits denotes. */
  function ParseDecimal(s: string): nat
    requires forall k :: 0 <= k < |s| ==> IsDigit(s[k])
  {
    if s == [] then 0
    else
      assert IsDigit(s[|s| - 1]);
      ParseDecimal(s[..|s| - 1]) * 10 + (s[|s| - 1] as int - '0' as int)
  }

  function Pow10(k: nat): nat
  {
    if k == 0 then 1 else 10 * Pow10(k - 1)
  }

  lemma {:induction false} DecimalRoundTrip(n: nat)
    ensures ParseDecimal(Decimal(n)) == n
  {
    if n >= 10 {
      DecimalRoundTrip(n / 10);
      var s := Decimal(n);
      assert s[..|s| - 1] == Decimal(n / 10);
    }
  }

  lemma {:induction false} DecimalLength(n: nat, k: nat)
    requires 1 <= k && n < Pow10(k)
    ensures |Decimal(n)| <= k
  {
    assert Pow10(1) == 10;
    if n >= 10 {
      DecimalLength(n / 10, k - 1);
    }
  }

  lemma {:induction false} ParseLeadingZero(s: string)
    requires forall k :: 0 <= k < |s| ==> IsDigit(s[k])
    ensures ParseDecimal(['0'] + s) == ParseDecimal(s)
    decreases |s|
  {
    if s != [] {
      var t := ['0'] + s;
      assert t[..|t| - 1] == ['0'] + s[..|s| - 1];
      ParseLeadingZero(s[..|s| - 1]);
    }
  }

  lemma {:induction false} ParseLeadingZeros(k: nat, s: string)
    requires forall j :: 0 <= j < |s| ==> IsDigit(s[j])
    ensures ParseDecimal(Zeros(k) + s) == ParseDecimal(s)
  {
    if k > 0 {
      var rest := Zeros(k - 1) + s;
      assert Zeros(k) + s == ['0'] + rest;
      ParseLeadingZeros(k - 1, s);
      ParseLeadingZero(rest);
    } else {
      assert Zeros(k) + s == s;
    }
  }

  /** Reading a stem's digits gives its number back. */
  lemma StemRoundTrip(i: nat)
    ensures forall k :: 0 <= k < |Stem(i)| ==> IsDigit(Stem(i)[k])
    ensures ParseDecimal(Stem(i)) == i
  {
    DecimalRoundTrip(i);
    var d := Decimal(i);
    if |d| < 7 {
      ParseLeadingZeros(7 - |d|, d);
    }
  }

  /** Stems of numbers below 10^7 are exactly seven digits. */
  lemma StemLength(i: nat)
    requires i < 10000000
    ensures |Stem(i)| == 7
    ensures forall k :: 0 <= k < 7 ==> IsDigit(Stem(i)[k])
  {
    assert Pow10(7) == 10000000;
    DecimalLength(i, 7);
    StemRoundTrip(i);
  }

  /** Distinct numbers get distinct stems. */
  lemma StemInjective(i: nat, j: nat)
    requires i != j
    ensures Stem(i) != Stem(j)
  {
    StemRoundTrip(i);
    StemRoundTrip(j);
  }

  // ---------------------------------------------------------------------
  // Paths
  // ---------------------------------------------------------------------

  /** `os.path.join(a, b)` on POSIX: an absolute b replaces a; otherwise a
      separator is added unless a is empty or already ends with one. */
  function Join(a: string, b: string): string
  {
    if |b| > 0 && b[0] == '/' then b
    else if a == [] || a[|a| - 1] == '/' then a + b
    else a + "/" + b
  }

  /** A joined path ends with its last part, and a relative last part keeps
      the first part as a prefix. */
  lemma JoinParts(a: string, b: string)
    ensures |b| <= |Join(a, b)| && Join(a, b)[|Join(a, b)| - |b|..] == b
    ensures !(|b| > 0 && b[0] == '/') ==> |a| <= |Join(a, b)| && Join(a, b)[..|a|] == a
  {
    var p := Join(a, b);
    if !(|b| > 0 && b[0] == '/') {
      var sep := if a == [] || a[|a| - 1] == '/' then "" else "/";
      assert p == a + sep + b;
      assert p[..|a|] == a;
    }
  }

  function ImageFileName(outputPath: string, imgExt: string, i: nat): string
  {
    Join(Join(outputPath, "images"), Stem(i) + imgExt)
  }

  function LabelFileName(outputPath: string, i: nat): string
  {
    Join(Join(outputPath, "labels"), Stem(i) + ".txt")
  }

  lemma JoinInjective(a: string, b: string, b': string)
    requires |b| > 0 && b[0] != '/' && |b'| > 0 && b'[0] != '/'
    requires Join(a, b) == Join(a, b')
    ensures b == b'
  {
    var p := if a == [] || a[|a| - 1] == '/' then a else a + "/";
    assert Join(a, b) == p + b && Join(a, b') == p + b';
    assert b == (p + b)[|p|..];
    assert b' == (p + b')[|p|..];
  }

  lemma StemAppendInjective(i: nat, j: nat, ext: string)
    requires i != j
    ensures Stem(i) + ext != Stem(j) + ext
  {
    StemInjective(i, j);
    if Stem(i) + ext == Stem(j) + ext {
      AppendCancel(Stem(i), Stem(j), ext);
    }
  }

  lemma AppendCancel(a: string, b: string, c: string)
    requires a + c == b + c
    ensures a == b
  {
    assert |a| == |b|;
    assert a == (a + c)[..|a|];
    assert b == (b + c)[..|b|];
  }

  /** Different numbers name different image files and different label
      files. */
  lemma FileNamesDistinct(outputPath: string, imgExt: string, i: nat, j: nat)
    requires i != j
    ensures ImageFileName(outputPath, imgExt, i) != ImageFileName(outputPath, imgExt, j)
    ensures LabelFileName(outputPath, i) != LabelFileName(outputPath, j)
  {
    StemRoundTrip(i);
    StemRoundTrip(j);
    StemAppendInjective(i, j, imgExt);
    StemAppendInjective(i, j, ".txt");
    var si, sj := Stem(i), Stem(j);
    assert IsDigit(si[0]) && IsDigit(sj[0]);
    assert (si + imgExt)[0] == si[0] && (sj + imgExt)[0] == sj[0];
    assert (si + ".txt")[0] == si[0] && (sj + ".txt")[0] == sj[0];
    if ImageFileName(outputPath, imgExt, i) == ImageFileName(outputPath, imgExt, j) {
      JoinInjective(Join(outputPath, "images"), si + imgExt, sj + imgExt);
    }
    if LabelFileName(outputPath, i) == LabelFileName(outputPath, j) {
      JoinInjective(Join(outputPath, "labels"), si + ".txt", sj + ".txt");
    }
  }

  // ---------------------------------------------------------------------
  // Label lines
  // ---------------------------------------------------------------------

  /** A raster whose shape has rows and columns, so that rectangles can be
      normalised by its size. */
  predicate HasArea(shape: Shape)
  {
    shape.rows > 0 && shape.cols > 0
  }

  /** `gdf.geometry.bounds`: the rectangle of every row, in row order. */
  function Bounds(gdf: GeoTable): (bounds: seq<Rect>)
    ensures |bounds| == |gdf|
  {
    seq(|gdf|, k requires 0 <= k < |gdf| => gdf[k].geometry)
  }

  /** The lines written for a table normalised by the given width and
      height: row k's class with row k's rectangle as a YOLO box. */
  function LabelLinesFor(gdf: GeoTable, width: real, height: real): seq<LabelLine>
    requires width != 0.0 && height != 0.0
  {
    var yolo := ConvertToYoloBatch(Bounds(gdf), width, height);
    seq(|gdf|, k requires 0 <= k < |gdf| => LabelLine(gdf[k].c, yolo[k]))
  }

  /** `save_gdf_to_yolo` as written (lines 348-349): height is taken from
      `shape[2]`, the columns, and width from `shape[1]`, the rows. */
  function LabelLinesAsWritten(gdf: GeoTable, shape: Shape): (lines: seq<LabelLine>)
    requires HasArea(shape)
    ensures |lines| == |gdf|
    ensures forall k :: 0 <= k < |gdf| ==> lines[k].cls == gdf[k].c
  {
    LabelLinesFor(gdf, shape.rows as real, shape.cols as real)
  }

  /** `save_gdf_to_yolo` as intended: width from the columns, height from
      the rows, the same reading of the shape as the georeferencer's. */
  function LabelLines(gdf: GeoTable, shape: Shape): (lines: seq<LabelLine>)
    requires HasArea(shape)
    ensures |lines| == |gdf|
    ensures forall k :: 0 <= k < |gdf| ==> lines[k].cls == gdf[k].c
  {
    LabelLinesFor(gdf, shape.cols as real, shape.rows as real)
  }

  /** A label file has one line per row, in row order, carrying the row's
      class; normalised back to the shape's size, each line's box gives the
      row's rectangle exactly. */
  lemma LabelLinesRows(gdf: GeoTable, shape: Shape)
    requires HasArea(shape)
    ensures |LabelLines(gdf, shape)| == |gdf|
    ensures forall k :: 0 <= k < |gdf| ==>
      LabelLines(gdf, shape)[k].cls == gdf[k].c &&
      ToCorners(LabelLines(gdf, shape)[k].box, shape.cols as real, shape.rows as real) == gdf[k].geometry
  {
    forall k | 0 <= k < |gdf|
      ensures ToCorners(LabelLines(gdf, shape)[k].box, shape.cols as real, shape.rows as real) == gdf[k].geometry
    {
      CornersRoundTrip(gdf[k].geometry, shape.cols as real, shape.rows as real);
    }
  }

  /** `write_yolo_boxes_to_file`: one line per box, in box order, each with
      the label at the same position. */
  method WriteYoloBoxesToFile(boxes: seq<YoloBox>, labels: seq<int>) returns (lines: seq<LabelLine>)
    requires |boxes| <= |labels|
    ensures |lines| == |boxes|
    ensures forall k :: 0 <= k < |boxes| ==> lines[k] == LabelLine(labels[k], boxes[k])
  {
    lines := [];
    for i := 0 to |boxes|
      invariant |lines| == i
      invariant forall k :: 0 <= k < i ==> lines[k] == LabelLine(labels[k], boxes[k])
    {
      var line := LabelLine(labels[i], boxes[i]);
      lines := lines + [line];
    }
  }

  /** `save_gdf_to_yolo` (with width and height read as intended): the
      table's rectangles converted back to YOLO boxes and written with its
      classes. */
  method SaveGdfToYolo(gdf: GeoTable, shape: Shape) returns (lines: seq<LabelLine>)
    requires HasArea(shape)
    ensures lines == LabelLines(gdf, shape)
  {
    var height := shape.rows as real;
    var width := shape.cols as real;
    var yoloBoxes := ConvertToYoloBatch(Bounds(gdf), width, height);
    var labels := seq(|gdf|, k requires 0 <= k < |gdf| => gdf[k].c);
    lines := WriteYoloBoxesToFile(yoloBoxes, labels);
  }

  // ---------------------------------------------------------------------
  // The saver's loop
  // ---------------------------------------------------------------------

  /** The pairs the saver skips: empty tables, when `skip_empty` is set. */
  predicate Skipped(t: GeoTable, skipEmpty: bool)
  {
    |t| < 1 && skipEmpty
  }

  /** The pairs that get written (and re-yielded), in arrival order. */
  function Kept(source: seq<(Raster, GeoTable)>, skipEmpty: bool): (kept: seq<(Raster, GeoTable)>)
    ensures |kept| <= |source|
    ensures forall k :: 0 <= k < |kept| ==> !Skipped(kept[k].1, skipEmpty)
  {
    if source == [] then []
    else
      var last := source[|source| - 1];
      Kept(source[..|source| - 1], skipEmpty) + (if Skipped(last.1, skipEmpty) then [] else [last])
  }

  /** The files written for the pair numbered i. */
  function WrittenFor(outputPath: string, imgExt: string, i: nat, pair: (Raster, GeoTable)): Written
    requires HasArea(pair.0.shape)
  {
    Written(ImageFileName(outputPath, imgExt, i), pair.0,
            LabelFileName(outputPath, i), LabelLines(pair.1, pair.0.shape))
  }

  /** The saver's `__iter__`: a counter starts at 0; a pair with an empty
      table is skipped when `skip_empty` is set; every other pair is written
      under the counter's stem, the counter advances, and the pair is
      re-yielded unchanged. */
  method SaveImagesAndLabels(source: seq<(Raster, GeoTable)>, outputPath: string, skipEmpty: bool, imgExt: string)
    returns (written: seq<Written>, yielded: seq<(Raster, GeoTable)>)
    requires forall k :: 0 <= k < |source| ==> HasArea(source[k].0.shape)
    ensures yielded == Kept(source, skipEmpty)
    ensures |written| == |yielded|
    ensures forall i :: 0 <= i < |written| ==>
      HasArea(yielded[i].0.shape) && written[i] == WrittenFor(outputPath, imgExt, i, yielded[i])
  {
    var i := 0;
    var rFilepath := Join(outputPath, "images");
    var lFilepath := Join(outputPath, "labels");
    written, yielded := [], [];
    for k := 0 to |source|
      invariant i == |written| == |yielded|
      invariant yielded == Kept(source[..k], skipEmpty)
      invariant forall j :: 0 <= j < |yielded| ==> HasArea(yielded[j].0.shape)
      invariant written == WrittenList(outputPath, imgExt, yielded)
    {
      KeptStep(source, k, skipEmpty);
      var (raster, df) := source[k];
      var number := Stem(i);
      var rFilename := Join(rFilepath, number + imgExt);
      var lFilename := Join(lFilepath, number + ".txt");
      if |df| < 1 && skipEmpty {
        continue;
      }
      var lines := SaveGdfToYolo(df, raster.shape);
      assert Written(rFilename, raster, lFilename, lines) == WrittenFor(outputPath, imgExt, i, (raster, df));
      WrittenListSnoc(outputPath, imgExt, yielded, (raster, df));
      written := written + [Written(rFilename, raster, lFilename, lines)];
      i := i + 1;
      yielded := yielded + [(raster, df)];
    }
    assert source[..|source|] == source;
  }

  /** The files written for the given pairs, numbered from 0 in order. */
  function WrittenList(outputPath: string, imgExt: string, pairs: seq<(Raster, GeoTable)>): seq<Written>
    requires forall j :: 0 <= j < |pairs| ==> HasArea(pairs[j].0.shape)
  {
    seq(|pairs|, j requires 0 <= j < |pairs| => WrittenFor(outputPath, imgExt, j, pairs[j]))
  }

  lemma WrittenListSnoc(outputPath: string, imgExt: string, pairs: seq<(Raster, GeoTable)>, p: (Raster, GeoTable))
    requires forall j :: 0 <= j < |pairs| ==> HasArea(pairs[j].0.shape)
    requires HasArea(p.0.shape)
    ensures WrittenList(outputPath, imgExt, pairs + [p]) ==
      WrittenList(outputPath, imgExt, pairs) + [WrittenFor(outputPath, imgExt, |pairs|, p)]
  {
    var longer := WrittenList(outputPath, imgExt, pairs + [p]);
    var extended := WrittenList(outputPath, imgExt, pairs) + [WrittenFor(outputPath, imgExt, |pairs|, p)];
    forall j | 0 <= j < |longer|
      ensures longer[j] == extended[j]
    {
      if j < |pairs| {
        assert (pairs + [p])[j] == pairs[j];
      }
    }
  }

  lemma KeptStep(source: seq<(Raster, GeoTable)>, k: nat, skipEmpty: bool)
    requires k < |source|
    ensures Kept(source[..k + 1], skipEmpty) ==
      Kept(source[..k], skipEmpty) + (if Skipped(source[k].1, skipEmpty) then [] else [source[k]])
  {
    assert source[..k + 1][..k] == source[..k];
  }

  /** Without `skip_empty`, every pair is written and re-yielded. */
  lemma {:induction false} KeptAll(source: seq<(Raster, GeoTable)>)
    ensures Kept(source, false) == source
  {
    if source != [] {
      KeptAll(source[..|source| - 1]);
    }
  }

  /** A pair is written exactly when it arrives and is not skipped. */
  lemma {:induction false} KeptMembers(source: seq<(Raster, GeoTable)>, skipEmpty: bool, p: (Raster, GeoTable))
    ensures p in Kept(source, skipEmpty) <==> p in source && !Skipped(p.1, skipEmpty)
  {
    if source != [] {
      var init := source[..|source| - 1];
      KeptMembers(init, skipEmpty, p);
      assert source == init + [source[|source| - 1]];
    }
  }

  /** Skipping keeps arrival order: it distributes over concatenation. */
  lemma {:induction false} KeptAppend(a: seq<(Raster, GeoTable)>, b: seq<(Raster, GeoTable)>, skipEmpty: bool)
    ensures Kept(a + b, skipEmpty) == Kept(a, skipEmpty) + Kept(b, skipEmpty)
    decreases |b|
  {
    if b == [] {
      assert a + b == a;
    } else {
      var b' := b[..|b| - 1];
      assert (a + b)[..|a + b| - 1] == a + b';
      KeptAppend(a, b', skipEmpty);
    }
  }

  /** The number of written pairs: the arrivals less the skipped ones. */
  function SkippedCount(source: seq<(Raster, GeoTable)>, skipEmpty: bool): nat
  {
    if source == [] then 0
    else SkippedCount(source[..|source| - 1], skipEmpty) + (if Skipped(source[|source| - 1].1, skipEmpty) then 1 else 0)
  }

  lemma {:induction false} KeptCount(source: seq<(Raster, GeoTable)>, skipEmpty: bool)
    ensures SkippedCount(source, skipEmpty) <= |source|
    ensures |Kept(source, skipEmpty)| == |source| - SkippedCount(source, skipEmpty)
  {
    if source != [] {
      KeptCount(source[..|source| - 1], skipEmpty);
    }
  }

  /** The written files never clash: pairs numbered differently have
      different image and label file names. */
  lemma WrittenNamesDistinct(written: seq<Written>, yielded: seq<(Raster, GeoTable)>,
                             outputPath: string, imgExt: string, i: nat, j: nat)
    requires |written| == |yielded|
    requires forall k :: 0 <= k < |yielded| ==> HasArea(yielded[k].0.shape)
    requires forall k :: 0 <= k < |written| ==> written[k] == WrittenFor(outputPath, imgExt, k, yielded[k])
    requires i < j < |written|
    ensures written[i].imageFile != written[j].imageFile
    ensures written[i].labelFile != written[j].labelFile
  {
    FileNamesDistinct(outputPath, imgExt, i, j);
  }
}
