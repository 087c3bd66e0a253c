/**
 * The DataFrame that the scripts change in place: its rows live in an array, the column
 * loop overwrites one column at a time, and the radius conversion divides the masked rows
 * of one column. Every method is specified by the table-level function it carries out.
 */
module Frames {
  import opened Wrappers
  import opened Cells
  import opened Tables

  class Frame {
    var names: seq<string>
    var rows: array<Record>

    ghost predicate Valid()
      reads this, rows
    {
      forall i :: 0 <= i < rows.Length ==> |rows[i].cells| == |names|
    }

    /** The table the frame currently holds. */
    function View(): (t: Table)
      reads this, rows
      ensures Valid() ==> WellFormed(t)
    {
      Table(names, rows[..])
    }

    constructor (t: Table)
      requires WellFormed(t)
      ensures Valid() && View() == t && fresh(rows)
    {
      names := t.names;
      rows := new Record[|t.records|](i requires 0 <= i < |t.records| => t.records[i]);
    }

    /** `df[names[j]] = f(df[names[j]])`, cell by cell. */
    method MapColumn(j: nat, f: Cell -> Cell)
      requires Valid() && j < |names|
      modifies rows
      ensures Valid() && View() == Tables.MapColumn(old(View()), j, f)
    {
      var i := 0;
      while i < rows.Length
        invariant 0 <= i <= rows.Length
        invariant forall k :: 0 <= k < i ==> rows[k] == MapCell(old(rows[k]), j, f)
        invariant forall k :: i <= k < rows.Length ==> rows[k] == old(rows[k])
      {
        rows[i] := MapCell(rows[i], j, f);
        i := i + 1;
      }
      assert rows[..] == Tables.MapColumn(old(View()), j, f).records;
    }

    /**
     * The column loop: for each listed column in turn, strip its letters, then coerce it to
     * numbers. It stops at the first listed column the frame does not have, which is
     * `cols[done]`; the columns before it have been cleaned.
     */
    method CleanColumns(cols: seq<string>) returns (done: nat)
      requires Valid() && NoDuplicates(cols)
      modifies rows
      ensures Valid() && names == old(names) && done <= |cols|
      ensures Tables.CleanColumns(old(View()), cols[..done]) == Success(View())
      ensures done < |cols| ==> cols[done] !in names
    {
      done := 0;
      assert cols[..0] == [];
      while done < |cols|
        invariant done <= |cols| && Valid() && names == old(names)
        invariant Tables.CleanColumns(old(View()), cols[..done]) == Success(View())
      {
        var j := IndexOf(names, cols[done]);
        if j.None? {
          return;
        }
        ghost var before := View();
        MapColumn(j.value, StripCell);
        MapColumn(j.value, Coerce);
        assert cols[..done + 1][..done] == cols[..done] && cols[..done + 1][done] == cols[done];
        CleanColumnsLast(old(View()), cols[..done + 1], before, j.value);
        done := done + 1;
      }
    }

    /** `df.loc[df[names[tc]] == unit, names[rc]] /= k`, row by row. */
    method DivideWhere(tc: nat, unit: string, rc: nat, k: real)
      requires Valid() && tc < |names| && rc < |names| && NumericColumn(View(), rc) && k != 0.0
      modifies rows
      ensures Valid() && View() == MaskedDivideColumn(old(View()), tc, unit, rc, k)
    {
      var i := 0;
      while i < rows.Length
        invariant 0 <= i <= rows.Length
        invariant forall m :: 0 <= m < i ==> rows[m] == MaskedDivideRecord(old(rows[m]), tc, unit, rc, k)
        invariant forall m :: i <= m < rows.Length ==> rows[m] == old(rows[m])
      {
        rows[i] := MaskedDivideRecord(rows[i], tc, unit, rc, k);
        i := i + 1;
      }
      assert rows[..] == MaskedDivideColumn(old(View()), tc, unit, rc, k).records;
    }

    /**
     * The radius conversion: `Rj` rows divided by 9.9604, then `Re` rows by 109.18; the
     * result is every row's radius in solar radii by its own tag.
     */
    method ConvertRadius(tc: nat, rc: nat)
      requires Valid() && tc < |names| && rc < |names| && tc != rc && NumericColumn(View(), rc)
      modifies rows
      ensures Valid() && View() == ConvertColumn(old(View()), tc, rc)
    {
      TwoPassesConvert(View(), tc, rc);
      DivideWhere(tc, "Rj", rc, JupiterRadiiPerSolarRadius);
      DivideWhere(tc, "Re", rc, EarthRadiiPerSolarRadius);
    }
  }
}
