/** The annotation parser (`YoloLoaderIterDataPipe`): raw (file, box)
    records grouped into one table per file, files in order of first
    appearance, each table's rows in arrival order. */
module Loader {
  import opened Tables

  /** The box part of a source record, [c, x, y, w, h], already coerced to
      an integer class and real coordinates. */
  datatype RawBox = RawBox(c: int, x: real, y: real, w: real, h: real)

  /** The one-row frame built from a source record. */
  function ToRow(fn: string, b: RawBox): Row
  {
    Row(fn, b.c, b.x, b.y, b.w, b.h)
  }

  /** All source records as rows, in arrival order. */
  function Rows(source: seq<(string, RawBox)>): (rows: seq<Row>)
    ensures |rows| == |source|
    ensures forall k :: 0 <= k < |source| ==> rows[k].file == source[k].0
  {
    seq(|source|, k requires 0 <= k < |source| => ToRow(source[k].0, source[k].1))
  }

  /** `df["file"].unique()`: the distinct file names, in the order in which
      each first appears. */
  function UniqueFiles(rows: seq<Row>): (u: seq<string>)
    ensures |u| <= |rows|
  {
    if rows == [] then []
    else
      var u := UniqueFiles(rows[..|rows| - 1]);
      var f := rows[|rows| - 1].file;
      if f in u then u else u + [f]
  }

  /** `df[df["file"] == f]`: the rows of file f, in arrival order. No row of
      another file is in it, and it is never longer than the input. */
  function RowsOf(rows: seq<Row>, f: string): (t: seq<Row>)
    ensures forall k :: 0 <= k < |t| ==> t[k].file == f
    ensures |t| <= |rows|
  {
    if rows == [] then []
    else
      var last := rows[|rows| - 1];
      RowsOf(rows[..|rows| - 1], f) + (if last.file == f then [last] else [])
  }

  /** What the parser yields: one table per distinct file. */
  function GroupByFile(rows: seq<Row>): (tables: seq<seq<Row>>)
    ensures |tables| <= |rows|
    ensures forall k :: 0 <= k < |tables| ==> |tables[k]| <= |rows|
  {
    var u := UniqueFiles(rows);
    seq(|u|, k requires 0 <= k < |u| => RowsOf(rows, u[k]))
  }

  /** Position of the first row of file f; the number of rows when no row
      is of file f. */
  function FirstIndex(rows: seq<Row>, f: string): (k: nat)
    ensures k <= |rows|
    ensures k < |rows| ==> rows[k].file == f
    ensures forall j :: 0 <= j < k ==> rows[j].file != f
  {
    if rows == [] then 0
    else if rows[0].file == f then 0
    else 1 + FirstIndex(rows[1..], f)
  }

  /** Total number of rows over a sequence of tables. */
  function TotalRows(tables: seq<seq<Row>>): nat
  {
    if tables == [] then 0 else TotalRows(tables[..|tables| - 1]) + |tables[|tables| - 1]|
  }

  /** What the parser's `__iter__` ends with: the tables it yields, or the
      `KeyError` raised when the frame has no "file" column. */
  datatype Parse = Parsed(tables: seq<seq<Row>>) | NoFileColumn

  /** The parser's `__iter__`: the whole source is read first, then the
      frame is grown one row per record, the distinct files are collected,
      and one filtered table is emitted per distinct file. A source with no
      records leaves the frame without columns, and asking for its "file"
      column fails before anything is yielded. */
  method ParseYolo(source: seq<(string, RawBox)>) returns (result: Parse)
    ensures source == [] ==> result == NoFileColumn
    ensures source != [] ==> result == Parsed(GroupByFile(Rows(source)))
  {
    var df: seq<Row> := [];
    for k := 0 to |source|
      invariant df == Rows(source[..k])
    {
      assert Rows(source[..k + 1]) == Rows(source[..k]) + [ToRow(source[k].0, source[k].1)];
      df := df + [ToRow(source[k].0, source[k].1)];
    }
    assert source[..|source|] == source;
    if df == [] {
      return NoFileColumn;
    }
    var uniqueFiles: seq<string> := [];
    for k := 0 to |df|
      invariant uniqueFiles == UniqueFiles(df[..k])
    {
      assert df[..k + 1][..k] == df[..k];
      if df[k].file !in uniqueFiles {
        uniqueFiles := uniqueFiles + [df[k].file];
      }
    }
    assert df[..|df|] == df;
    var tables := [];
    for k := 0 to |uniqueFiles|
      invariant |tables| == k
      invariant forall j :: 0 <= j < k ==> tables[j] == RowsOf(df, uniqueFiles[j])
    {
      var t := Select(df, uniqueFiles[k]);
      tables := tables + [t];
    }
    result := Parsed(tables);
  }

  /** One boolean-mask selection `df[df["file"] == f]`, row by row. */
  method Select(df: seq<Row>, f: string) returns (t: seq<Row>)
    ensures t == RowsOf(df, f)
  {
    t := [];
    for j := 0 to |df|
      invariant t == RowsOf(df[..j], f)
    {
      assert df[..j + 1][..j] == df[..j];
      if df[j].file == f {
        t := t + [df[j]];
      }
    }
    assert df[..|df|] == df;
  }

  /** Each file appears once among the tables' files. */
  lemma {:induction false} UniqueFilesDistinct(rows: seq<Row>)
    ensures forall i, j :: 0 <= i < j < |UniqueFiles(rows)| ==> UniqueFiles(rows)[i] != UniqueFiles(rows)[j]
  {
    if rows != [] {
      UniqueFilesDistinct(rows[..|rows| - 1]);
    }
  }

  /** A file has a table exactly when some record names it. */
  lemma {:induction false} UniqueFilesCover(rows: seq<Row>, f: string)
    ensures f in UniqueFiles(rows) <==> exists r :: r in rows && r.file == f
  {
    if rows != [] {
      var init := rows[..|rows| - 1];
      UniqueFilesCover(init, f);
      assert rows == init + [rows[|rows| - 1]];
      if exists r :: r in rows && r.file == f {
        var r :| r in rows && r.file == f;
        if r != rows[|rows| - 1] {
          assert r in init;
        }
      }
    }
  }

  /** Rows of a file split over concatenated inputs: arrival order is kept. */
  lemma {:induction false} RowsOfAppend(a: seq<Row>, b: seq<Row>, f: string)
    ensures RowsOf(a + b, f) == RowsOf(a, f) + RowsOf(b, f)
    decreases |b|
  {
    if b == [] {
      assert a + b == a;
    } else {
      var b' := b[..|b| - 1];
      assert (a + b)[..|a + b| - 1] == a + b';
      RowsOfAppend(a, b', f);
    }
  }

  /** A table holds every row of its file, as often as the source has it,
      and no other row. */
  lemma {:induction false} RowsOfCount(rows: seq<Row>, f: string, r: Row)
    ensures multiset(RowsOf(rows, f))[r] == if r.file == f then multiset(rows)[r] else 0
  {
    if rows != [] {
      var init := rows[..|rows| - 1];
      RowsOfCount(init, f, r);
      assert rows == init + [rows[|rows| - 1]];
    }
  }

  /** Every yielded table has at least one row. */
  lemma RowsOfNonEmpty(rows: seq<Row>, f: string)
    requires f in UniqueFiles(rows)
    ensures |RowsOf(rows, f)| > 0
  {
    UniqueFilesCover(rows, f);
    var r :| r in rows && r.file == f;
    RowsOfCount(rows, f, r);
  }

  /** Tables come out in order of each file's first appearance: a later
      table's file first occurs strictly after an earlier table's. */
  lemma {:induction false} UniqueFilesFirstSeenOrder(rows: seq<Row>, i: nat, j: nat)
    requires i < j < |UniqueFiles(rows)|
    ensures FirstIndex(rows, UniqueFiles(rows)[i]) < FirstIndex(rows, UniqueFiles(rows)[j]) < |rows|
  {
    var u := UniqueFiles(rows);
    var init := rows[..|rows| - 1];
    var last := rows[|rows| - 1];
    assert rows == init + [last];
    var u' := UniqueFiles(init);
    FirstIndexSnoc(init, last, u[i]);
    FirstIndexSnoc(init, last, u[j]);
    if j < |u'| {
      UniqueFilesFirstSeenOrder(init, i, j);
    } else {
      // u[j] is the last row's file, seen for the first time at the end
      assert u[j] == last.file && last.file !in u' && u[i] in u';
      FirstIndexFound(init, u[i]);
      FirstIndexFound(init, last.file);
    }
  }

  /** A file is among the distinct files exactly when its first index is
      that of a row. */
  lemma FirstIndexFound(rows: seq<Row>, f: string)
    ensures f in UniqueFiles(rows) <==> FirstIndex(rows, f) < |rows|
  {
    UniqueFilesCover(rows, f);
    var k := FirstIndex(rows, f);
    if k < |rows| {
      assert rows[k] in rows;
    }
  }

  lemma FirstIndexIs(rows: seq<Row>, f: string, k: nat)
    requires k < |rows| && rows[k].file == f
    requires forall j :: 0 <= j < k ==> rows[j].file != f
    ensures FirstIndex(rows, f) == k
  {
  }

  lemma FirstIndexSnoc(init: seq<Row>, last: Row, f: string)
    ensures FirstIndex(init + [last], f) ==
      if FirstIndex(init, f) < |init| then FirstIndex(init, f)
      else if last.file == f then |init| else |init| + 1
  {
    var rows := init + [last];
    var k := FirstIndex(init, f);
    if k < |init| {
      assert rows[k] == init[k];
      FirstIndexIs(rows, f, k);
    } else if last.file == f {
      FirstIndexIs(rows, f, |init|);
    } else {
      assert forall j :: 0 <= j < |rows| ==> rows[j].file != f by {
        forall j | 0 <= j < |rows| ensures rows[j].file != f {
          if j < |init| {
            assert rows[j] == init[j];
          }
        }
      }
    }
  }

  /** No row of a file that no record names. */
  lemma {:induction false} RowsOfAbsent(rows: seq<Row>, f: string)
    requires forall k :: 0 <= k < |rows| ==> rows[k].file != f
    ensures RowsOf(rows, f) == []
  {
    if rows != [] {
      RowsOfAbsent(rows[..|rows| - 1], f);
    }
  }

  /** Sum of the row counts of the given files' tables. */
  function CountOf(rows: seq<Row>, files: seq<string>): nat
  {
    if files == [] then 0 else CountOf(rows, files[..|files| - 1]) + |RowsOf(rows, files[|files| - 1])|
  }

  lemma {:induction false} CountOfSnoc(init: seq<Row>, last: Row, files: seq<string>)
    requires forall i, j :: 0 <= i < j < |files| ==> files[i] != files[j]
    ensures CountOf(init + [last], files) == CountOf(init, files) + (if last.file in files then 1 else 0)
  {
    var rows := init + [last];
    assert rows[..|rows| - 1] == init;
    if files != [] {
      var pre := files[..|files| - 1];
      CountOfSnoc(init, last, pre);
      assert last.file in files <==> last.file in pre || last.file == files[|files| - 1];
      assert files[|files| - 1] !in pre;
    }
  }

  lemma {:induction false} TotalRowsIsCount(rows: seq<Row>, files: seq<string>)
    ensures TotalRows(seq(|files|, k requires 0 <= k < |files| => RowsOf(rows, files[k]))) == CountOf(rows, files)
  {
    var ts := seq(|files|, k requires 0 <= k < |files| => RowsOf(rows, files[k]));
    if files != [] {
      var pre := files[..|files| - 1];
      TotalRowsIsCount(rows, pre);
      assert ts[..|ts| - 1] == seq(|pre|, k requires 0 <= k < |pre| => RowsOf(rows, pre[k]));
    }
  }

  /** The tables' row counts add up to the number of source records: no
      record is lost or repeated. */
  lemma {:induction false} GroupByFileTotal(rows: seq<Row>)
    ensures TotalRows(GroupByFile(rows)) == |rows|
  {
    TotalRowsIsCount(rows, UniqueFiles(rows));
    CountOfUnique(rows);
  }

  lemma {:induction false} CountOfUnique(rows: seq<Row>)
    ensures CountOf(rows, UniqueFiles(rows)) == |rows|
  {
    if rows != [] {
      var init := rows[..|rows| - 1];
      var last := rows[|rows| - 1];
      assert rows == init + [last];
      var u := UniqueFiles(init);
      CountOfUnique(init);
      UniqueFilesDistinct(init);
      CountOfSnoc(init, last, u);
      if last.file !in u {
        UniqueFilesCover(init, last.file);
        forall k | 0 <= k < |init| ensures init[k].file != last.file {
          assert init[k] in init;
        }
        RowsOfAbsent(init, last.file);
        assert RowsOf(rows, last.file) == [last];
      }
    }
  }

  /** The grouped tables, as the parser yields them: one per distinct file,
      each non-empty and holding only rows of that file. */
  lemma GroupByFileTables(rows: seq<Row>, k: nat)
    requires k < |GroupByFile(rows)|
    ensures |GroupByFile(rows)| == |UniqueFiles(rows)|
    ensures GroupByFile(rows)[k] != []
    ensures forall j :: 0 <= j < |GroupByFile(rows)[k]| ==> GroupByFile(rows)[k][j].file == UniqueFiles(rows)[k]
  {
    RowsOfNonEmpty(rows, UniqueFiles(rows)[k]);
  }
}
