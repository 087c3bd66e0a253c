/**
 * The cleaning pipeline as each of the three scripts runs it:
 *  - nearby_stars.py and nearest_stars.py read six named columns, drop rows 0 and 1,
 *    renumber the rest from 0, rename `Unnamed: 19` to `Radunit`, clean the five numeric
 *    columns and convert the radius by the `Radunit` tag; nearest_stars.py also takes the
 *    smallest present distance as the lower colour bound;
 *  - data/nearest_stars.py keeps all 25 columns, drops rows 0 and 1 without renumbering,
 *    cleans the same five columns, converts the radius by the `Unnamed: 19` tag, and takes
 *    the same colour bound.
 */
module Scripts {
  import opened Wrappers
  import opened Strings
  import opened FixedWidth
  import opened Cells
  import opened Tables
  import opened Frames

  /** The columns the first two scripts read, by their header names. */
  const SelectedColumns: seq<string> := ["DIST", "Mv", "BOL-LUM", "RADIUS", "Unnamed: 19", "Teff"]

  /** The columns the loop turns into numbers, in the loop's order. */
  const NumericColumns: seq<string> := ["Teff", "Mv", "DIST", "RADIUS", "BOL-LUM"]

  lemma NumericColumnsDistinct()
    ensures NoDuplicates(NumericColumns)
    ensures "Radunit" !in NumericColumns && "Unnamed: 19" !in NumericColumns
  {
  }

  lemma NumericColumnsSelected()
    ensures forall c :: c in NumericColumns ==> c in SelectedColumns
    ensures "Unnamed: 19" in SelectedColumns
  {
  }

  /** The header rows 0 and 1 that every script drops. */
  const HeaderRows: seq<int> := [0, 1]

  // ---------------------------------------------------------------------------------------
  // Table-level specification

  /** Whether the column called `name` exists and holds only numbers and missing values. */
  predicate NumericNamed(t: Table, name: string) {
    match IndexOf(t.names, name)
    case None => false
    case Some(j) => NumericColumn(t, j)
  }

  /**
   * Lines 16-26 of the scripts on an already prepared table: the column loop over the
   * five numeric columns, then the masked radius conversion by the tag column `unit`.
   * `df[unit]` is looked up before `df['RADIUS']`, so a missing tag column is reported first.
   */
  function Normalized(t: Table, unit: string): (r: Result<Table, LoadError>)
    requires WellFormed(t) && unit !in NumericColumns
    ensures r.Failure? ==> r.error.ColumnNotFound?
    ensures r.Success? ==> WellFormed(r.value) && r.value.names == t.names && |r.value.records| == |t.records|
  {
    NumericColumnsDistinct();
    CleanColumnsCells(t, NumericColumns);
    match CleanColumns(t, NumericColumns)
    case Failure(e) => Failure(e)
    case Success(u) =>
      match IndexOf(u.names, unit)
      case None => Failure(ColumnNotFound(unit))
      case Some(tc) =>
        match IndexOf(u.names, "RADIUS")
        case None => Failure(ColumnNotFound("RADIUS"))
        case Some(rc) =>
          assert NumericColumn(u, rc) by {
            assert Listed(t.names, NumericColumns, rc);
          }
          Success(ConvertColumn(u, tc, rc))
  }

  /** The cell normalisation leaves at row i, column j of the prepared table `t`. */
  function NormalizedCell(t: Table, unit: string, i: nat, j: nat): Cell
    requires WellFormed(t) && i < |t.records| && j < |t.names| && unit in t.names
  {
    var c := t.records[i].cells[j];
    if Listed(t.names, NumericColumns, j) then
      if t.names[j] == "RADIUS" then
        ToSolarRadii(Clean(c), t.records[i].cells[IndexOf(t.names, unit).value])
      else Clean(c)
    else c
  }

  /**
   * Normalisation succeeds exactly when the five numeric columns and the tag column exist.
   * It then keeps the column names, row labels and row count; each of Teff, Mv, DIST and
   * BOL-LUM holds its cleaned value, RADIUS holds its cleaned value put into solar radii by
   * the row's raw tag, and every other column, the tag included, is unchanged.
   */
  lemma NormalizedCells(t: Table, unit: string)
    requires WellFormed(t) && unit !in NumericColumns
    ensures Normalized(t, unit).Success? <==>
      unit in t.names && forall c :: c in NumericColumns ==> c in t.names
    ensures Normalized(t, unit).Success? ==>
      var u := Normalized(t, unit).value;
      && u.names == t.names && Keys(u.records) == Keys(t.records)
      && forall i, j :: 0 <= i < |t.records| && 0 <= j < |t.names| ==>
           u.records[i].cells[j] == NormalizedCell(t, unit, i, j)
  {
    NumericColumnsDistinct();
    CleanColumnsCells(t, NumericColumns);
    if Normalized(t, unit).Success? {
      var u := CleanColumns(t, NumericColumns).value;
      var tc, rc := IndexOf(u.names, unit).value, IndexOf(u.names, "RADIUS").value;
      var v := ConvertColumn(u, tc, rc);
      assert Normalized(t, unit) == Success(v);
      assert Listed(t.names, NumericColumns, rc);
      assert !Listed(t.names, NumericColumns, tc);
      forall i, j | 0 <= i < |t.records| && 0 <= j < |t.names|
        ensures v.records[i].cells[j] == NormalizedCell(t, unit, i, j)
      {
        assert v.records[i] == ConvertRecord(u.records[i], tc, rc);
        if j == rc {
          assert t.names[j] == "RADIUS";
        } else if Listed(t.names, NumericColumns, j) {
          assert t.names[j] != "RADIUS";
        }
      }
      forall i | 0 <= i < |t.records|
        ensures Keys(v.records)[i] == Keys(t.records)[i]
      {
        assert v.records[i] == ConvertRecord(u.records[i], tc, rc);
        assert Keys(u.records)[i] == Keys(t.records)[i];
      }
    }
  }

  /** After normalisation a named numeric column holds only numbers and missing values. */
  lemma NormalizedNumeric(t: Table, unit: string, name: string)
    requires WellFormed(t) && unit !in NumericColumns && name in NumericColumns
    requires Normalized(t, unit).Success?
    ensures NumericNamed(Normalized(t, unit).value, name)
  {
    NormalizedCells(t, unit);
    var u := Normalized(t, unit).value;
    var j := IndexOf(t.names, name).value;
    assert Listed(t.names, NumericColumns, j);
    forall i | 0 <= i < |u.records|
      ensures IsNumeric(u.records[i].cells[j])
    {
      assert u.records[i].cells[j] == NormalizedCell(t, unit, i, j);
    }
  }

  /**
   * `df.DIST.min()`, the lower end of the colour scale: the smallest present distance,
   * with missing distances skipped; None when every distance is missing.
   */
  function LowerColorBound(t: Table): (b: Option<real>)
    requires WellFormed(t) && NumericNamed(t, "DIST")
    ensures var d := IndexOf(t.names, "DIST").value;
      && (b.Some? ==> exists i :: 0 <= i < |t.records| && t.records[i].cells[d] == Num(b.value))
      && (b.Some? ==> forall i :: 0 <= i < |t.records| && t.records[i].cells[d].Num? ==>
                        b.value <= t.records[i].cells[d].x)
      && (b.None? <==> forall i :: 0 <= i < |t.records| ==> t.records[i].cells[d].NaN?)
  {
    var col := Column(t, IndexOf(t.names, "DIST").value);
    MinPresent(col)
  }

  // ---------------------------------------------------------------------------------------
  // Script-level specification

  /** The stripped header names of the file, with blank headers named by position. */
  function Header(lines: seq<string>): seq<string>
    requires lines != []
  {
    HeaderNames(lines[0], Widths)
  }

  /** The cells of file line n restricted to the columns the reader keeps. */
  function RawRow(lines: seq<string>, usecols: Option<seq<string>>, n: nat): seq<Cell>
    requires 0 < n < |lines|
  {
    Select(ReadRow(lines[n], Widths), Kept(Header(lines), usecols))
  }

  /**
   * Lines 9-14 of nearby_stars.py and nearest_stars.py: read the six named columns, drop
   * rows 0 and 1, renumber from 0, rename `Unnamed: 19` to `Radunit`.
   */
  function NearbyPrepared(lines: seq<string>): (r: Result<Table, LoadError>)
    ensures r.Success? ==> WellFormed(r.value)
  {
    match ReadFwf(lines, Widths, Some(SelectedColumns))
    case Failure(e) => Failure(e)
    case Success(read) =>
      match Drop(read, HeaderRows)
      case Failure(e) => Failure(e)
      case Success(dropped) => Success(Rename(ResetIndex(dropped), "Unnamed: 19", "Radunit"))
  }

  /** Lines 9-26 of nearby_stars.py (and of nearest_stars.py). */
  function NearbyCatalog(lines: seq<string>): Result<Table, LoadError> {
    match NearbyPrepared(lines)
    case Failure(e) => Failure(e)
    case Success(p) => Normalized(p, "Radunit")
  }

  /** Lines 9-12 of data/nearest_stars.py: read all columns, drop rows 0 and 1, keep the labels. */
  function DataPrepared(lines: seq<string>): (r: Result<Table, LoadError>)
    ensures r.Success? ==> WellFormed(r.value)
  {
    match ReadFwf(lines, Widths, None)
    case Failure(e) => Failure(e)
    case Success(read) => Drop(read, HeaderRows)
  }

  /** Lines 9-24 of data/nearest_stars.py. */
  function DataCatalog(lines: seq<string>): Result<Table, LoadError> {
    match DataPrepared(lines)
    case Failure(e) => Failure(e)
    case Success(p) => Normalized(p, "Unnamed: 19")
  }

  // ---------------------------------------------------------------------------------------
  // What the preparation steps produce

  /** Row i of the freshly read table is file line i+1, labelled i. */
  lemma ReadRows(lines: seq<string>, usecols: Option<seq<string>>)
    requires ReadFwf(lines, Widths, usecols).Success?
    ensures var t := ReadFwf(lines, Widths, usecols).value;
      && t.names == Select(Header(lines), Kept(Header(lines), usecols))
      && forall i :: 0 <= i < |t.records| ==> t.records[i] == Record(i, RawRow(lines, usecols, i + 1))
  {
    var t := ReadFwf(lines, Widths, usecols).value;
    var keep := Kept(Header(lines), usecols);
    forall i | 0 <= i < |t.records|
      ensures t.records[i] == Record(i, RawRow(lines, usecols, i + 1))
    {
      assert t.records[i] == DataRecord(lines, Widths, keep, i);
    }
  }

  /** After a successful preparation the tag column is `Radunit` and the five numeric columns are there. */
  lemma NearbyPreparedColumns(lines: seq<string>)
    requires NearbyPrepared(lines).Success?
    ensures var p := NearbyPrepared(lines).value;
      && "Radunit" in p.names && "Unnamed: 19" !in p.names
      && forall c :: c in NumericColumns ==> c in p.names
  {
    var read := ReadFwf(lines, Widths, Some(SelectedColumns)).value;
    var reset := ResetIndex(Drop(read, HeaderRows).value);
    assert reset.names == read.names;
    forall c | c in SelectedColumns
      ensures c in reset.names
    {
      ReadFwfKeepsRequested(lines, Widths, SelectedColumns, c);
    }
    NumericColumnsDistinct();
    NumericColumnsSelected();
    RenameNames(reset, "Unnamed: 19", "Radunit");
  }

  /**
   * Lines 9-14 of nearby_stars.py and nearest_stars.py. They fail exactly when the file is
   * empty, when one of the six requested names is not in the header, or when fewer than two
   * rows follow the header. Otherwise the table has one row per file line after the first
   * three, labelled 0, 1, 2, ... in file order, holding that line's requested fields;
   * `Unnamed: 19` is renamed to `Radunit`, and the five numeric columns are all present.
   */
  lemma NearbyPreparedShape(lines: seq<string>)
    ensures NearbyPrepared(lines).Failure? <==>
      lines == [] || (exists c :: c in SelectedColumns && c !in Header(lines)) || |lines| < 3
    ensures NearbyPrepared(lines).Success? ==>
      var p := NearbyPrepared(lines).value;
      && |p.records| == |lines| - 3
      && Keys(p.records) == Range(0, |lines| - 3)
      && (forall i :: 0 <= i < |p.records| ==> p.records[i].cells == RawRow(lines, Some(SelectedColumns), i + 3))
      && "Radunit" in p.names && "Unnamed: 19" !in p.names
      && (forall c :: c in NumericColumns ==> c in p.names)
  {
    var read := ReadFwf(lines, Widths, Some(SelectedColumns));
    if read.Success? {
      ReadRows(lines, Some(SelectedColumns));
      DropFirstTwo(read.value);
      var rs := read.value.records;
      if |rs| >= 2 {
        var p := NearbyPrepared(lines).value;
        var dropped := Drop(read.value, HeaderRows).value;
        assert dropped.records == rs[2..];
        assert p.records == ResetIndex(dropped).records;
        forall i | 0 <= i < |p.records|
          ensures p.records[i].cells == RawRow(lines, Some(SelectedColumns), i + 3)
        {
          assert p.records[i].cells == rs[i + 2].cells;
        }
        NearbyPreparedColumns(lines);
      }
    }
  }

  /**
   * With the six columns selected, normalisation cannot fail: nearby_stars.py fails only
   * where its preparation does, never on a missing column.
   */
  lemma NearbyCatalogErrors(lines: seq<string>)
    ensures NearbyCatalog(lines).Failure? <==> NearbyPrepared(lines).Failure?
  {
    if NearbyPrepared(lines).Success? {
      NearbyPreparedColumns(lines);
      NumericColumnsDistinct();
      NormalizedCells(NearbyPrepared(lines).value, "Radunit");
    }
  }

  /**
   * Lines 9-12 of data/nearest_stars.py. They fail exactly when the file is empty or fewer
   * than two rows follow the header. Otherwise every column is kept under its header name,
   * and the rows after the first three file lines keep their labels 2, 3, ... in file order.
   */
  lemma DataPreparedShape(lines: seq<string>)
    ensures DataPrepared(lines).Failure? <==> |lines| < 3
    ensures DataPrepared(lines).Success? ==>
      var p := DataPrepared(lines).value;
      && p.names == Header(lines)
      && |p.records| == |lines| - 3
      && Keys(p.records) == Range(2, |lines| - 1)
      && forall i :: 0 <= i < |p.records| ==> p.records[i].cells == ReadRow(lines[i + 3], Widths)
  {
    var read := ReadFwf(lines, Widths, None);
    if read.Success? {
      ReadRows(lines, None);
      DropFirstTwo(read.value);
      var rs := read.value.records;
      var header := Header(lines);
      assert Select(header, Kept(header, None)) == header;
      if |rs| >= 2 {
        var p := DataPrepared(lines).value;
        assert p.records == rs[2..];
        forall i | 0 <= i < |p.records|
          ensures p.records[i].cells == ReadRow(lines[i + 3], Widths)
          ensures Keys(p.records)[i] == i + 2
        {
          assert p.records[i] == rs[i + 2];
          assert Select(ReadRow(lines[i + 3], Widths), Kept(header, None)) == ReadRow(lines[i + 3], Widths);
        }
      }
    }
  }

  /**
   * data/nearest_stars.py selects no columns, so besides the preparation failures it fails
   * exactly when the header lacks the tag column `Unnamed: 19` or one of the five numeric
   * columns (the `df[col]` lookups).
   */
  lemma DataCatalogErrors(lines: seq<string>)
    ensures DataCatalog(lines).Success? <==>
      |lines| >= 3 && "Unnamed: 19" in Header(lines) && forall c :: c in NumericColumns ==> c in Header(lines)
  {
    DataPreparedShape(lines);
    if DataPrepared(lines).Success? {
      NumericColumnsDistinct();
      NormalizedCells(DataPrepared(lines).value, "Unnamed: 19");
    }
  }

  /** nearest_stars.py: the catalog of lines 9-26 and the colour bound of line 57. */
  function NearestOutput(lines: seq<string>): Result<(Table, Option<real>), LoadError> {
    match NearbyPrepared(lines)
    case Failure(e) => Failure(e)
    case Success(p) =>
      NearbyPreparedColumns(lines);
      NumericColumnsDistinct();
      NormalizedCells(p, "Radunit");
      match Normalized(p, "Radunit")
      case Failure(e) => Failure(e)
      case Success(t) =>
        NormalizedNumeric(p, "Radunit", "DIST");
        Success((t, LowerColorBound(t)))
  }

  /** data/nearest_stars.py: the catalog of lines 9-24 and the colour bound of line 44. */
  function DataOutput(lines: seq<string>): Result<(Table, Option<real>), LoadError> {
    match DataPrepared(lines)
    case Failure(e) => Failure(e)
    case Success(p) =>
      NumericColumnsDistinct();
      match Normalized(p, "Unnamed: 19")
      case Failure(e) => Failure(e)
      case Success(t) =>
        NormalizedNumeric(p, "Unnamed: 19", "DIST");
        Success((t, LowerColorBound(t)))
  }

  // ---------------------------------------------------------------------------------------
  // The scripts, running the in-place steps on a frame

  /** Lines 16-26: the column loop and the masked radius conversion, on a frame. */
  method Normalize(t: Table, unit: string) returns (r: Result<Table, LoadError>)
    requires WellFormed(t) && unit !in NumericColumns
    ensures r == Normalized(t, unit)
  {
    NumericColumnsDistinct();
    CleanColumnsCells(t, NumericColumns);
    var df := new Frame(t);
    var done := df.CleanColumns(NumericColumns);
    if done < |NumericColumns| {
      CleanColumnsStopsAt(t, NumericColumns, done, |NumericColumns|);
      assert NumericColumns[..|NumericColumns|] == NumericColumns;
      return Failure(ColumnNotFound(NumericColumns[done]));
    }
    assert NumericColumns[..done] == NumericColumns;
    var tc := IndexOf(df.names, unit);
    if tc.None? {
      return Failure(ColumnNotFound(unit));
    }
    var rc := IndexOf(df.names, "RADIUS");
    if rc.None? {
      return Failure(ColumnNotFound("RADIUS"));
    }
    assert NumericColumn(df.View(), rc.value) by {
      assert Listed(t.names, NumericColumns, rc.value);
    }
    df.ConvertRadius(tc.value, rc.value);
    return Success(df.View());
  }

  /** nearby_stars.py, lines 9-26: the cleaned catalog handed to the plot. */
  method NearbyStars(lines: seq<string>) returns (r: Result<Table, LoadError>)
    ensures r == NearbyCatalog(lines)
  {
    var read := ReadFwf(lines, Widths, Some(SelectedColumns));
    if read.Failure? {
      return Failure(read.error);
    }
    var dropped := Drop(read.value, HeaderRows);
    if dropped.Failure? {
      return Failure(dropped.error);
    }
    var df := Rename(ResetIndex(dropped.value), "Unnamed: 19", "Radunit");
    r := Normalize(df, "Radunit");
  }

  /** nearest_stars.py, lines 9-26 and 57: the cleaned catalog and the lower colour bound. */
  method NearestStars(lines: seq<string>) returns (r: Result<(Table, Option<real>), LoadError>)
    ensures r == NearestOutput(lines)
  {
    var catalog := NearbyStars(lines);
    if catalog.Failure? {
      return Failure(catalog.error);
    }
    var p := NearbyPrepared(lines).value;
    NearbyPreparedColumns(lines);
    NumericColumnsDistinct();
    NormalizedCells(p, "Radunit");
    NormalizedNumeric(p, "Radunit", "DIST");
    r := Success((catalog.value, LowerColorBound(catalog.value)));
  }

  /** data/nearest_stars.py, lines 9-24 and 44: the cleaned catalog and the lower colour bound. */
  method DataNearestStars(lines: seq<string>) returns (r: Result<(Table, Option<real>), LoadError>)
    ensures r == DataOutput(lines)
  {
    var read := ReadFwf(lines, Widths, None);
    if read.Failure? {
      return Failure(read.error);
    }
    var df := Drop(read.value, HeaderRows);
    if df.Failure? {
      return Failure(df.error);
    }
    var catalog := Normalize(df.value, "Unnamed: 19");
    if catalog.Failure? {
      return Failure(catalog.error);
    }
    NumericColumnsDistinct();
    NormalizedNumeric(df.value, "Unnamed: 19", "DIST");
    r := Success((catalog.value, LowerColorBound(catalog.value)));
  }
}
