/**
 * The catalog table as a value: column names plus labelled rows, and the whole-table
 * operations the scripts apply by rebinding `df` (reading the file, dropping rows,
 * renumbering, renaming a column), together with the column-wise specifications of the
 * two in-place steps (the strip-and-coerce loop and the masked radius division).
 */
module Tables {
  import opened Wrappers
  import opened Strings
  import opened FixedWidth
  import opened Cells

  /** One row: its index label and one cell per column. */
  datatype Record = Record(key: int, cells: seq<Cell>)

  datatype Table = Table(names: seq<string>, records: seq<Record>)

  /** The failures the scripts can run into before plotting. */
  datatype LoadError =
    | EmptyData                  // the file has no line to take column names from
    | UsecolsMismatch            // a requested column is not in the header
    | LabelNotFound              // `drop` was given a label the index does not hold
    | ColumnNotFound(name: string)  // `df[name]` on a column that does not exist

  /** Every row has one cell per column. */
  predicate WellFormed(t: Table) {
    forall i :: 0 <= i < |t.records| ==> |t.records[i].cells| == |t.names|
  }

  function Keys(rs: seq<Record>): (ls: seq<int>)
    ensures |ls| == |rs| && forall i :: 0 <= i < |rs| ==> ls[i] == rs[i].key
  {
    seq(|rs|, i requires 0 <= i < |rs| => rs[i].key)
  }

  /** The labels lo, lo+1, ..., hi-1. */
  function Range(lo: int, hi: int): (r: seq<int>)
    requires lo <= hi
    ensures |r| == hi - lo && forall i :: 0 <= i < |r| ==> r[i] == lo + i
  {
    seq(hi - lo, i requires 0 <= i < hi - lo => lo + i)
  }

  // ---------------------------------------------------------------------------------------
  // Reading the file

  /** The name the reader gives column j: its stripped header text, or `Unnamed: j` if blank. */
  function ColumnName(header: string, j: nat): string {
    if header == [] then "Unnamed: " + NatToString(j) else header
  }

  /** The blank-headed twentieth column, which holds the radius unit, is called `Unnamed: 19`. */
  lemma UnitColumnName()
    ensures ColumnName([], 19) == "Unnamed: 19"
  {
    assert NatToString(1) == "1" && NatToString(9) == "9";
    assert NatToString(19) == NatToString(1) + ['9'];
  }

  function HeaderName(line: string, ws: seq<nat>, j: nat): string
    requires j < |ws|
  {
    ColumnName(Trim(Field(line, ws, j)), j)
  }

  /** The column names taken from the first line. */
  function HeaderNames(line: string, ws: seq<nat>): (names: seq<string>)
    ensures |names| == |ws|
  {
    seq(|ws|, j requires 0 <= j < |ws| => HeaderName(line, ws, j))
  }

  function FieldCell(line: string, ws: seq<nat>, j: nat): Cell
    requires j < |ws|
  {
    ReadCell(Field(line, ws, j))
  }

  /** The cells of one data line, one per width. */
  function ReadRow(line: string, ws: seq<nat>): (row: seq<Cell>)
    ensures |row| == |ws|
  {
    seq(|ws|, j requires 0 <= j < |ws| => FieldCell(line, ws, j))
  }

  /** The positions, from `from` on and in ascending order, of the columns whose name is in `cols`. */
  function PositionsFrom(names: seq<string>, cols: seq<string>, from: nat): (ps: seq<nat>)
    requires from <= |names|
    ensures forall k :: 0 <= k < |ps| ==> from <= ps[k] < |names| && names[ps[k]] in cols
    ensures forall j :: from <= j < |names| && names[j] in cols ==> j in ps
    ensures forall k, l :: 0 <= k < l < |ps| ==> ps[k] < ps[l]
    decreases |names| - from
  {
    if from == |names| then []
    else
      var rest := PositionsFrom(names, cols, from + 1);
      if names[from] in cols then ConsPosition(names, cols, from, rest); [from] + rest else rest
  }

  /** Putting a listed column in front of the positions after it keeps them in range and ascending. */
  lemma ConsPosition(names: seq<string>, cols: seq<string>, from: nat, rest: seq<nat>)
    requires from < |names| && names[from] in cols
    requires forall k :: 0 <= k < |rest| ==> from + 1 <= rest[k] < |names| && names[rest[k]] in cols
    requires forall j :: from + 1 <= j < |names| && names[j] in cols ==> j in rest
    requires forall k, l :: 0 <= k < l < |rest| ==> rest[k] < rest[l]
    ensures var ps := [from] + rest;
      && (forall k :: 0 <= k < |ps| ==> from <= ps[k] < |names| && names[ps[k]] in cols)
      && (forall j :: from <= j < |names| && names[j] in cols ==> j in ps)
      && (forall k, l :: 0 <= k < l < |ps| ==> ps[k] < ps[l])
  {
    var ps := [from] + rest;
    assert ps[0] == from && forall k :: 1 <= k < |ps| ==> ps[k] == rest[k - 1];
  }

  function Select<T>(row: seq<T>, ps: seq<nat>): (r: seq<T>)
    requires forall k :: 0 <= k < |ps| ==> ps[k] < |row|
    ensures |r| == |ps| && forall k :: 0 <= k < |ps| ==> r[k] == row[ps[k]]
  {
    seq(|ps|, k requires 0 <= k < |ps| => row[ps[k]])
  }

  /** The positions of the columns kept: the requested ones in file order, or all of them. */
  function Kept(names: seq<string>, usecols: Option<seq<string>>): (ps: seq<nat>)
    ensures forall k :: 0 <= k < |ps| ==> ps[k] < |names|
  {
    if usecols.Some? then PositionsFrom(names, usecols.value, 0) else Range(0, |names|)
  }

  function DataRecord(lines: seq<string>, ws: seq<nat>, keep: seq<nat>, i: nat): (r: Record)
    requires i + 1 < |lines|
    requires forall k :: 0 <= k < |keep| ==> keep[k] < |ws|
    ensures r.key == i && |r.cells| == |keep|
  {
    Record(i, Select(ReadRow(lines[i + 1], ws), keep))
  }

  /** The rows of every line after the first, labelled 0, 1, 2, ... */
  function DataRecords(lines: seq<string>, ws: seq<nat>, keep: seq<nat>): (rs: seq<Record>)
    requires lines != []
    requires forall k :: 0 <= k < |keep| ==> keep[k] < |ws|
    ensures |rs| == |lines| - 1 && Keys(rs) == Range(0, |lines| - 1)
    ensures forall i :: 0 <= i < |rs| ==> rs[i] == DataRecord(lines, ws, keep, i) && |rs[i].cells| == |keep|
  {
    var rs := seq(|lines| - 1, i requires 0 <= i < |lines| - 1 => DataRecord(lines, ws, keep, i));
    assert Keys(rs) == Range(0, |lines| - 1);
    rs
  }

  /**
   * `pd.read_fwf(path, widths=ws, usecols=...)` on the lines of the file: the first line
   * names the columns, every later line is a row labelled from 0; with `usecols` only the
   * requested columns are kept, in file order, and a requested name missing from the
   * header is an error.
   */
  function ReadFwf(lines: seq<string>, ws: seq<nat>, usecols: Option<seq<string>>): (r: Result<Table, LoadError>)
    ensures r.Failure? <==> lines == [] || (usecols.Some? && exists c :: c in usecols.value && c !in HeaderNames(lines[0], ws))
    ensures r.Success? ==> WellFormed(r.value) && |r.value.records| == |lines| - 1
    ensures r.Success? ==> Keys(r.value.records) == Range(0, |lines| - 1)
  {
    if lines == [] then Failure(EmptyData)
    else
      var all := HeaderNames(lines[0], ws);
      if usecols.Some? && exists c :: c in usecols.value && c !in all then Failure(UsecolsMismatch)
      else
        var keep := Kept(all, usecols);
        Success(Table(Select(all, keep), DataRecords(lines, ws, keep)))
  }

  /** `usecols` keeps every column it asks for (a missing one fails the read instead). */
  lemma ReadFwfKeepsRequested(lines: seq<string>, ws: seq<nat>, cols: seq<string>, c: string)
    requires lines != [] && forall d :: d in cols ==> d in HeaderNames(lines[0], ws)
    requires c in cols
    ensures ReadFwf(lines, ws, Some(cols)).Success?
    ensures c in ReadFwf(lines, ws, Some(cols)).value.names
  {
    var all := HeaderNames(lines[0], ws);
    var keep := Kept(all, Some(cols));
    assert !exists d :: d in cols && d !in all;
    assert ReadFwf(lines, ws, Some(cols)) == Success(Table(Select(all, keep), DataRecords(lines, ws, keep)));
    var j :| 0 <= j < |all| && all[j] == c;
    assert j in keep;
    var k :| 0 <= k < |keep| && keep[k] == j;
    assert Select(all, keep)[k] == c;
  }

  // ---------------------------------------------------------------------------------------
  // Dropping, renumbering and renaming

  /** The rows whose label is not in `drop`, in their original order. */
  function Without(rs: seq<Record>, drop: seq<int>): (r: seq<Record>)
    ensures |r| <= |rs|
    ensures forall x :: x in r <==> x in rs && x.key !in drop
  {
    if rs == [] then []
    else (if rs[0].key in drop then [] else [rs[0]]) + Without(rs[1..], drop)
  }

  /** Appending a row appends it to the result exactly when its label is kept: the order is the original one. */
  lemma {:induction false} WithoutSnoc(rs: seq<Record>, x: Record, drop: seq<int>)
    ensures Without(rs + [x], drop) == Without(rs, drop) + (if x.key in drop then [] else [x])
  {
    var tail := if x.key in drop then [] else [x];
    if rs == [] {
      assert rs + [x] == [x];
      assert Without([x][1..], drop) == [];
    } else {
      var head := if rs[0].key in drop then [] else [rs[0]];
      var w := Without(rs[1..], drop);
      SnocParts(rs, x);
      WithoutSnoc(rs[1..], x, drop);
      WithoutHead(rs + [x], drop);
      WithoutHead(rs, drop);
      AppendAssoc(head, w, tail);
    }
  }

  lemma WithoutHead(rs: seq<Record>, drop: seq<int>)
    requires rs != []
    ensures Without(rs, drop) == (if rs[0].key in drop then [] else [rs[0]]) + Without(rs[1..], drop)
  {
  }

  lemma SnocParts(rs: seq<Record>, x: Record)
    requires rs != []
    ensures (rs + [x])[0] == rs[0] && (rs + [x])[1..] == rs[1..] + [x]
  {
  }

  lemma AppendAssoc(a: seq<Record>, b: seq<Record>, c: seq<Record>)
    ensures a + (b + c) == (a + b) + c
  {
  }

  lemma {:induction false} WithoutNoneDropped(rs: seq<Record>, drop: seq<int>)
    requires forall i :: 0 <= i < |rs| ==> rs[i].key !in drop
    ensures Without(rs, drop) == rs
  {
    if rs != [] {
      WithoutNoneDropped(rs[1..], drop);
    }
  }

  /** `df.drop(labels)`: every listed label must be in the index; those rows go. */
  function Drop(t: Table, labels: seq<int>): (r: Result<Table, LoadError>)
    ensures r.Failure? <==> exists l :: l in labels && l !in Keys(t.records)
    ensures r.Success? ==> r.value.names == t.names
    ensures r.Success? && WellFormed(t) ==> WellFormed(r.value)
  {
    if exists l :: l in labels && l !in Keys(t.records) then Failure(LabelNotFound)
    else Success(t.(records := Without(t.records, labels)))
  }

  /**
   * On a table labelled 0..n-1, `drop([0, 1])` removes exactly the first two rows and the
   * rest keep their labels 2..n-1 and their order; it fails when there are fewer than two.
   */
  lemma DropFirstTwo(t: Table)
    requires Keys(t.records) == Range(0, |t.records|)
    ensures Drop(t, [0, 1]).Success? <==> |t.records| >= 2
    ensures Drop(t, [0, 1]).Success? ==> Drop(t, [0, 1]).value.records == t.records[2..]
  {
    var rs := t.records;
    if |rs| >= 2 {
      assert Keys(rs)[0] == 0 && Keys(rs)[1] == 1;
      assert forall l :: l in [0, 1] ==> l in Keys(rs);
      WithoutFirstTwo(rs);
    } else {
      assert forall i :: 0 <= i < |rs| ==> Keys(rs)[i] == i;
      assert 1 !in Keys(rs);
    }
  }

  lemma WithoutFirstTwo(rs: seq<Record>)
    requires |rs| >= 2 && Keys(rs) == Range(0, |rs|)
    ensures Without(rs, [0, 1]) == rs[2..]
  {
    assert Keys(rs)[0] == 0 && Keys(rs)[1] == 1;
    assert forall i :: 2 <= i < |rs| ==> Keys(rs)[i] == i;
    WithoutNoneDropped(rs[2..], [0, 1]);
    assert rs[1..][1..] == rs[2..];
    assert Without(rs[1..], [0, 1]) == Without(rs[2..], [0, 1]);
  }

  function Relabel(rs: seq<Record>, i: nat): Record
    requires i < |rs|
  {
    Record(i, rs[i].cells)
  }

  /** `reset_index(drop=True)`: same rows in the same order, labelled 0, 1, 2, ... */
  function ResetIndex(t: Table): (r: Table)
    ensures r.names == t.names && |r.records| == |t.records|
    ensures Keys(r.records) == Range(0, |t.records|)
    ensures forall i :: 0 <= i < |t.records| ==> r.records[i].cells == t.records[i].cells
    ensures WellFormed(t) ==> WellFormed(r)
  {
    t.(records := seq(|t.records|, i requires 0 <= i < |t.records| => Relabel(t.records, i)))
  }

  function RenameOne(name: string, from: string, to: string): string {
    if name == from then to else name
  }

  /** `df.rename(columns={from: to})`: only the column names change. */
  function Rename(t: Table, from: string, to: string): (r: Table)
    ensures r.records == t.records && |r.names| == |t.names|
    ensures forall j :: 0 <= j < |t.names| ==> r.names[j] == if t.names[j] == from then to else t.names[j]
    ensures WellFormed(t) ==> WellFormed(r)
  {
    t.(names := seq(|t.names|, j requires 0 <= j < |t.names| => RenameOne(t.names[j], from, to)))
  }

  /** Renaming keeps every other name, puts `to` where `from` was, and leaves no `from`. */
  lemma RenameNames(t: Table, from: string, to: string)
    ensures forall c :: c in t.names && c != from ==> c in Rename(t, from, to).names
    ensures from in t.names ==> to in Rename(t, from, to).names
    ensures from != to ==> from !in Rename(t, from, to).names
  {
    var r := Rename(t, from, to);
    forall c | c in t.names && c != from
      ensures c in r.names
    {
      var j :| 0 <= j < |t.names| && t.names[j] == c;
      assert r.names[j] == c;
    }
    if from in t.names {
      var j :| 0 <= j < |t.names| && t.names[j] == from;
      assert r.names[j] == to;
    }
  }

  /** The position of the first column called `name`, the one `df[name]` refers to. */
  function IndexOf(names: seq<string>, name: string): (r: Option<nat>)
    ensures r.None? <==> name !in names
    ensures r.Some? ==> r.value < |names| && names[r.value] == name
    ensures r.Some? ==> forall j :: 0 <= j < r.value ==> names[j] != name
  {
    if names == [] then None
    else if names[0] == name then Some(0)
    else match IndexOf(names[1..], name)
      case None => None
      case Some(j) => Some(j + 1)
  }

  // ---------------------------------------------------------------------------------------
  // Column-wise specifications of the in-place steps

  function SetCell(r: Record, j: nat, c: Cell): Record
    requires j < |r.cells|
  {
    r.(cells := r.cells[j := c])
  }

  function MapCell(r: Record, j: nat, f: Cell -> Cell): Record
    requires j < |r.cells|
  {
    SetCell(r, j, f(r.cells[j]))
  }

  /** `df[name] = f(df[name])` for the column at position j: f applied to that column only. */
  function MapColumn(t: Table, j: nat, f: Cell -> Cell): (r: Table)
    requires WellFormed(t) && j < |t.names|
    ensures WellFormed(r) && r.names == t.names && |r.records| == |t.records|
  {
    t.(records := seq(|t.records|, i requires 0 <= i < |t.records| => MapCell(t.records[i], j, f)))
  }

  predicate NoDuplicates(cols: seq<string>) {
    forall k, l :: 0 <= k < l < |cols| ==> cols[k] != cols[l]
  }

  /**
   * The loop `for col in cols: df[col] = df[col].str.replace(...); df[col] = pd.to_numeric(...)`
   * as a function of the table before it; `df[col]` on an absent column is an error.
   */
  function CleanColumns(t: Table, cols: seq<string>): (r: Result<Table, LoadError>)
    requires WellFormed(t)
    ensures r.Success? ==> WellFormed(r.value) && r.value.names == t.names
    ensures r.Success? ==> |r.value.records| == |t.records|
    ensures r.Failure? ==> r.error.ColumnNotFound?
    decreases |cols|
  {
    if cols == [] then Success(t)
    else
      match CleanColumns(t, cols[..|cols| - 1])
      case Failure(e) => Failure(e)
      case Success(u) =>
        match IndexOf(u.names, cols[|cols| - 1])
        case None => Failure(ColumnNotFound(cols[|cols| - 1]))
        case Some(j) => Success(MapColumn(MapColumn(u, j, StripCell), j, Coerce))
  }

  /** One more column name: the loop so far, then that column stripped and coerced. */
  lemma CleanColumnsLast(t: Table, cols: seq<string>, u: Table, j: nat)
    requires WellFormed(t) && cols != []
    requires CleanColumns(t, cols[..|cols| - 1]) == Success(u)
    requires IndexOf(u.names, cols[|cols| - 1]) == Some(j)
    ensures WellFormed(u) && j < |u.names|
    ensures CleanColumns(t, cols) == Success(MapColumn(MapColumn(u, j, StripCell), j, Coerce))
  {
  }

  /** Column j holds only numbers and missing values. */
  predicate NumericColumn(t: Table, j: nat) {
    forall i :: 0 <= i < |t.records| ==> j < |t.records[i].cells| && IsNumeric(t.records[i].cells[j])
  }

  function MaskedDivideRecord(r: Record, tc: nat, unit: string, rc: nat, k: real): Record
    requires tc < |r.cells| && rc < |r.cells| && IsNumeric(r.cells[rc]) && k != 0.0
  {
    SetCell(r, rc, MaskedDivide(r.cells[rc], r.cells[tc], unit, k))
  }

  /** `df.loc[df[tag] == unit, radius] /= k` with the tag column at tc and the radius at rc. */
  function MaskedDivideColumn(t: Table, tc: nat, unit: string, rc: nat, k: real): (r: Table)
    requires WellFormed(t) && tc < |t.names| && rc < |t.names| && NumericColumn(t, rc) && k != 0.0
    ensures WellFormed(r) && r.names == t.names && |r.records| == |t.records|
  {
    t.(records := seq(|t.records|, i requires 0 <= i < |t.records| =>
                        MaskedDivideRecord(t.records[i], tc, unit, rc, k)))
  }

  function ConvertRecord(r: Record, tc: nat, rc: nat): Record
    requires tc < |r.cells| && rc < |r.cells| && IsNumeric(r.cells[rc])
  {
    SetCell(r, rc, ToSolarRadii(r.cells[rc], r.cells[tc]))
  }

  /** Every row's radius put into solar radii according to that row's unit tag. */
  function ConvertColumn(t: Table, tc: nat, rc: nat): (r: Table)
    requires WellFormed(t) && tc < |t.names| && rc < |t.names| && NumericColumn(t, rc)
    ensures WellFormed(r) && r.names == t.names && |r.records| == |t.records|
  {
    t.(records := seq(|t.records|, i requires 0 <= i < |t.records| => ConvertRecord(t.records[i], tc, rc)))
  }

  /** A masked division keeps the radius column numeric and leaves every other column alone. */
  lemma MaskedDivideColumnFrame(t: Table, tc: nat, unit: string, rc: nat, k: real)
    requires WellFormed(t) && tc < |t.names| && rc < |t.names| && NumericColumn(t, rc) && k != 0.0
    ensures NumericColumn(MaskedDivideColumn(t, tc, unit, rc, k), rc)
    ensures forall i, j :: 0 <= i < |t.records| && 0 <= j < |t.names| && j != rc ==>
      MaskedDivideColumn(t, tc, unit, rc, k).records[i].cells[j] == t.records[i].cells[j]
  {
    var u := MaskedDivideColumn(t, tc, unit, rc, k);
    forall i | 0 <= i < |t.records|
      ensures u.records[i] == MaskedDivideRecord(t.records[i], tc, unit, rc, k)
    {
    }
  }

  /**
   * The scripts' two masked passes (`Rj` rows divided by 9.9604, then `Re` rows divided by
   * 109.18) equal one conversion of every row by its own tag: the tag column is not the
   * radius column, so the second mask sees the same tags, and no row matches both.
   */
  lemma TwoPassesConvert(t: Table, tc: nat, rc: nat)
    requires WellFormed(t) && tc < |t.names| && rc < |t.names| && tc != rc && NumericColumn(t, rc)
    ensures NumericColumn(MaskedDivideColumn(t, tc, "Rj", rc, JupiterRadiiPerSolarRadius), rc)
    ensures MaskedDivideColumn(MaskedDivideColumn(t, tc, "Rj", rc, JupiterRadiiPerSolarRadius),
                               tc, "Re", rc, EarthRadiiPerSolarRadius)
            == ConvertColumn(t, tc, rc)
  {
    MaskedDivideColumnFrame(t, tc, "Rj", rc, JupiterRadiiPerSolarRadius);
    var u := MaskedDivideColumn(t, tc, "Rj", rc, JupiterRadiiPerSolarRadius);
    var v := MaskedDivideColumn(u, tc, "Re", rc, EarthRadiiPerSolarRadius);
    var w := ConvertColumn(t, tc, rc);
    forall i | 0 <= i < |t.records|
      ensures v.records[i] == w.records[i]
    {
      var r := t.records[i];
      assert u.records[i] == MaskedDivideRecord(r, tc, "Rj", rc, JupiterRadiiPerSolarRadius);
      assert u.records[i].cells[tc] == r.cells[tc];
      assert v.records[i] == MaskedDivideRecord(u.records[i], tc, "Re", rc, EarthRadiiPerSolarRadius);
      MaskedPassesConvert(r.cells[rc], r.cells[tc]);
      assert w.records[i] == ConvertRecord(r, tc, rc);
      assert v.records[i].cells == w.records[i].cells;
    }
  }

  /** Once a listed column is missing, the loop stops there: the error names that column. */
  lemma {:induction false} CleanColumnsStopsAt(t: Table, cols: seq<string>, done: nat, m: nat)
    requires WellFormed(t) && done < m <= |cols|
    requires CleanColumns(t, cols[..done]).Success?
    requires cols[done] !in t.names
    ensures CleanColumns(t, cols[..m]) == Failure(ColumnNotFound(cols[done]))
    decreases m
  {
    TakeSnoc(cols, m);
    CleanColumnsFails(t, cols[..m - 1], cols[m - 1]);
    if m > done + 1 {
      CleanColumnsStopsAt(t, cols, done, m - 1);
    }
  }

  lemma TakeSnoc(cols: seq<string>, m: nat)
    requires 0 < m <= |cols|
    ensures cols[..m] == cols[..m - 1] + [cols[m - 1]]
  {
  }

  /** How the loop fails: by an earlier failure, or on a last column the table lacks. */
  lemma CleanColumnsFails(t: Table, init: seq<string>, last: string)
    requires WellFormed(t)
    ensures CleanColumns(t, init).Failure? ==> CleanColumns(t, init + [last]) == CleanColumns(t, init)
    ensures CleanColumns(t, init).Success? && last !in t.names ==>
      CleanColumns(t, init + [last]) == Failure(ColumnNotFound(last))
  {
    var c := init + [last];
    assert c[..|c| - 1] == init && c[|c| - 1] == last;
  }

  /** What `df[name] = f(df[name])` does to each cell: column j gets f, nothing else changes. */
  lemma MapColumnAt(t: Table, j: nat, f: Cell -> Cell, i: nat, m: nat)
    requires WellFormed(t) && j < |t.names| && i < |t.records| && m < |t.names|
    ensures MapColumn(t, j, f).records[i].key == t.records[i].key
    ensures MapColumn(t, j, f).records[i].cells[m] == if m == j then f(t.records[i].cells[j]) else t.records[i].cells[m]
  {
    assert MapColumn(t, j, f).records[i] == MapCell(t.records[i], j, f);
  }

  /** Column j is the first column called by one of the listed names: the one the loop cleans. */
  predicate Listed(names: seq<string>, cols: seq<string>, j: nat) {
    j < |names| && names[j] in cols && IndexOf(names, names[j]) == Some(j)
  }

  /** The cell the column loop leaves at row i, column j. */
  function CleanedCell(t: Table, cols: seq<string>, i: nat, j: nat): Cell
    requires WellFormed(t) && i < |t.records| && j < |t.names|
  {
    if Listed(t.names, cols, j) then Clean(t.records[i].cells[j]) else t.records[i].cells[j]
  }

  /**
   * The column loop over distinct names succeeds exactly when every listed column exists;
   * it then cleans each listed column once (letters stripped, then coerced), leaves every
   * other column, the row labels and the row count unchanged.
   */
  lemma {:induction false} CleanColumnsCells(t: Table, cols: seq<string>)
    requires WellFormed(t) && NoDuplicates(cols)
    ensures CleanColumns(t, cols).Success? <==> forall c :: c in cols ==> c in t.names
    ensures CleanColumns(t, cols).Success? ==>
      var u := CleanColumns(t, cols).value;
      && Keys(u.records) == Keys(t.records)
      && forall i, j :: 0 <= i < |t.records| && 0 <= j < |t.names| ==>
           u.records[i].cells[j] == CleanedCell(t, cols, i, j)
    decreases |cols|
  {
    if cols == [] {
      forall i, j | 0 <= i < |t.records| && 0 <= j < |t.names|
        ensures t.records[i].cells[j] == CleanedCell(t, cols, i, j)
      {
      }
    } else {
      var n := |cols| - 1;
      var init, last := cols[..n], cols[n];
      assert NoDuplicates(init);
      CleanColumnsCells(t, init);
      assert forall c :: c in cols <==> c in init || c == last;
      if CleanColumns(t, init).Success? {
        var u := CleanColumns(t, init).value;
        if last in t.names {
          var j := IndexOf(u.names, last).value;
          assert cols[..n] == init;
          CleanColumnsLast(t, cols, u, j);
          assert last !in init;
          CleanColumnsCellsStep(t, cols, u, j);
        }
      }
    }
  }

  /** The inductive step of CleanColumnsCells: cleaning the last listed column. */
  lemma CleanColumnsCellsStep(t: Table, cols: seq<string>, u: Table, j: nat)
    requires WellFormed(t) && cols != [] && cols[|cols| - 1] !in cols[..|cols| - 1]
    requires WellFormed(u) && u.names == t.names && |u.records| == |t.records|
    requires Keys(u.records) == Keys(t.records)
    requires forall i, m :: 0 <= i < |t.records| && 0 <= m < |t.names| ==>
      u.records[i].cells[m] == CleanedCell(t, cols[..|cols| - 1], i, m)
    requires IndexOf(t.names, cols[|cols| - 1]) == Some(j)
    ensures var v := MapColumn(MapColumn(u, j, StripCell), j, Coerce);
      && Keys(v.records) == Keys(t.records)
      && forall i, m :: 0 <= i < |t.records| && 0 <= m < |t.names| ==>
           v.records[i].cells[m] == CleanedCell(t, cols, i, m)
  {
    var init, last := cols[..|cols| - 1], cols[|cols| - 1];
    var v := MapColumn(MapColumn(u, j, StripCell), j, Coerce);
    forall i, m | 0 <= i < |t.records| && 0 <= m < |t.names|
      ensures v.records[i].cells[m] == CleanedCell(t, cols, i, m)
    {
      MapColumnAt(u, j, StripCell, i, m);
      MapColumnAt(MapColumn(u, j, StripCell), j, Coerce, i, m);
      assert forall c :: c in cols <==> c in init || c == last;
      if m == j {
        assert Listed(t.names, cols, m) && !Listed(t.names, init, m);
      } else {
        assert Listed(t.names, cols, m) == Listed(t.names, init, m);
      }
    }
    forall i | 0 <= i < |t.records|
      ensures v.records[i].key == t.records[i].key
    {
      MapColumnAt(u, j, StripCell, i, j);
      MapColumnAt(MapColumn(u, j, StripCell), j, Coerce, i, j);
      assert Keys(u.records)[i] == Keys(t.records)[i];
    }
  }

  /** The cells of column j, top to bottom. */
  function Column(t: Table, j: nat): (col: seq<Cell>)
    requires WellFormed(t) && j < |t.names|
    ensures |col| == |t.records| && forall i :: 0 <= i < |t.records| ==> col[i] == t.records[i].cells[j]
  {
    seq(|t.records|, i requires 0 <= i < |t.records| => t.records[i].cells[j])
  }
}
