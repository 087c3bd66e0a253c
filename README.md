# Nearest stars: a verified model of the catalog cleaning

Three plotting scripts — `nearby_stars.py`, `nearest_stars.py` and `data/nearest_stars.py` —
load the same fixed-width catalog of nearby stars. They turn its text columns into numbers and
put every radius in solar radii before plotting. This project models that cleaning pipeline
and proves what each step does:

1. **Fixed-width read** (`FixedWidth`, `Tables.ReadFwf`). Every line is cut into 25 fields at
   the running sums of the widths `28, 12, …, 6`, which add up to 238 characters. A line
   shorter than a field gives a short or empty field, as Python slicing does. Each field is
   stripped of blanks. An empty field, or one holding a default missing-value spelling such as
   `NA`, `N/A`, `NULL` or `nan`, becomes a missing value.
   - The first line supplies the column names. A blank header is named `Unnamed: j` after its
     position, so the radius-unit column is `Unnamed: 19`.
   - Every later line is a data row, labelled 0, 1, 2, … .
   - The first two scripts ask for six columns by name. The read fails when the file is empty
     or when a requested name is not in the header.
2. **Header rows** (`Tables.Drop`, `Tables.ResetIndex`). `drop([0, 1])` removes the rows
   labelled 0 and 1, which are the second and third lines of the file. It fails if fewer rows
   exist. The first two scripts then renumber the rows from 0 and rename `Unnamed: 19` to
   `Radunit`; `data/nearest_stars.py` keeps labels 2, 3, … .
3. **Numeric columns** (`Cells.Clean`, `Tables.CleanColumns`, `Frames.Frame.CleanColumns`).
   The scripts loop over `Teff`, `Mv`, `DIST`, `RADIUS` and `BOL-LUM`. Each column has every
   ASCII letter deleted, then is converted with `errors='coerce'`. A text that is not a
   decimal number (or a value that was not text) becomes missing. A name absent from the
   table stops the loop with a `KeyError` at that column.
4. **Radius units** (`Cells.ToSolarRadii`, `Frames.Frame.ConvertRadius`). Two masked in-place
   divisions run on the radius column:
   - where the tag is exactly `Rj`, the radius is divided by 9.9604;
   - where the tag is exactly `Re`, it is divided by 109.18;
   - every other radius, and every missing one, stays as it is.
5. **Colour bound** (`Cells.MinPresent`, `Scripts.LowerColorBound`). `nearest_stars.py` and
   `data/nearest_stars.py` take `DIST.min()` as the lower end of the colour scale. It is the
   smallest distance that is present, and missing only when every distance is missing.

The whole scripts are `Scripts.NearbyStars`, `Scripts.NearestStars` and
`Scripts.DataNearestStars`. They are methods that run steps 3 and 4 in place on a `Frame`,
a class whose rows live in an array. Each is proved equal to a pure specification on the
`Table` value: `NearbyCatalog`, `NearestOutput` and `DataOutput`. Lemmas then state the
shape of these results and exactly when they fail.

A cell is `Text(s)`, `Num(x)` or `NaN`; numbers are exact reals. The read produces only
text and missing cells: the reader's type inference is not modelled, see below. Failures are
`LoadError` values:
- `EmptyData` — no line to take names from;
- `UsecolsMismatch` — a requested column is missing;
- `LabelNotFound` — `drop` got a label the index lacks;
- `ColumnNotFound(name)` — `df[name]` on an absent column.

The reader consumes the first line of the file as the header, so the rows labelled 0 and 1
that `drop([0, 1])` removes are the second and third lines of the file.

## Model

| member | source | states |
|---|---|---|
| FixedWidth.WidthsLayout | nearby_stars.py:9-10 | there are 25 field widths and a full record spans 238 characters |
| FixedWidth.Clip | nearby_stars.py:12 | a field has length min(hi, line length) - lo, or 0 when lo is at or past the line's end, so never more than its width; its i-th character is the line's character lo + i |
| FixedWidth.Cut | nearby_stars.py:12 | a line is cut into exactly one field per width |
| FixedWidth.FieldIsSlice | nearby_stars.py:12 | field j is exactly the characters between the running sums of the first j and j+1 widths |
| FixedWidth.CutCovers | nearby_stars.py:12 | the fields, joined in order, give back the line up to the record length: no character is lost, repeated or reordered |
| FixedWidth.CutRoundTrip | nearby_stars.py:12 | cutting a line built from fields of exactly the declared widths (plus any tail) gives those fields back |
| Strings.Trim | nearby_stars.py:12 | the reader strips a field of surrounding blanks: the result starts and ends with a non-blank, its i-th character is the field's character i places after the leading blanks, and everything after it is blank |
| Strings.TrimPadded | nearby_stars.py:12 | a value padded with spaces to its column width reads back as the value |
| Cells.ReadCell | nearby_stars.py:12 | a field is never read as a number; it is missing iff its stripped text is empty or a default missing-value spelling, and otherwise it is that stripped, non-empty text |
| Cells.ReadPadded | nearby_stars.py:12 | a padded field whose value is not a missing-value spelling is read as that text |
| Cells.ReadNaSpelling | nearby_stars.py:12 | a default missing-value spelling such as `N/A`, padded to its column, is read as missing |
| Cells.ReadBlank | nearby_stars.py:12 | an all-blank field is read as a missing value |
| Tables.UnitColumnName | nearby_stars.py:11 | the blank-headed twentieth column gets the name `Unnamed: 19` |
| Tables.ReadFwf | nearby_stars.py:12 | the read fails iff there are no lines or a requested name is not in the header; otherwise one row per later line, labelled 0..n-1 |
| Tables.ReadFwfKeepsRequested | nearby_stars.py:11-12 | every column named in `usecols` is in the table read |
| Tables.PositionsFrom | nearby_stars.py:11-12 | `usecols` keeps exactly the columns whose names were requested, in file order |
| Tables.Drop | nearby_stars.py:13 | `drop` fails iff a label is not in the index; it keeps the column names |
| Tables.Without | nearby_stars.py:13 | a row survives the drop iff its label is not one of the dropped ones |
| Tables.WithoutSnoc | nearby_stars.py:13 | a row appended to the input is appended to the output iff its label is kept, so the surviving rows stay in their original order |
| Tables.DropFirstTwo | nearby_stars.py:13 | on rows labelled 0..n-1, dropping [0, 1] succeeds iff n >= 2 and removes exactly the first two rows |
| Tables.ResetIndex | nearby_stars.py:13 | renumbering relabels the rows 0..n-1 and keeps every row's cells and order |
| Tables.Rename | nearby_stars.py:14 | the rows are untouched and only the matching column name changes |
| Tables.RenameNames | nearby_stars.py:14 | after the rename `Radunit` is present, `Unnamed: 19` is gone and every other name remains |
| Strings.StripLetters | nearby_stars.py:19 | the result contains no ASCII letter and is never longer than the input |
| Strings.StripLettersCounts | nearby_stars.py:19 | every character that is not a letter is kept as often as it occurs, and every letter is removed |
| Strings.StripLettersConcat | nearby_stars.py:19 | stripping distributes over concatenation, so the order of what is kept is unchanged |
| Strings.StripLettersOfLetterFree | nearby_stars.py:19 | a text without letters is unchanged |
| Strings.StripLettersIdempotent | nearby_stars.py:19 | stripping twice is stripping once |
| Cells.StripCell | nearby_stars.py:19 | a string cell becomes its string with the ASCII letters deleted (whose kept characters, counts and order the StripLetters lemmas state), so no letter is left and it is no longer; a cell that is not a string comes out missing |
| Cells.CleanStripStable | nearby_stars.py:19 | the cell-level replacement is idempotent on every cell, string or not |
| Cells.CleanDropsExponent | nearby_stars.py:19-20 | an `e` exponent marker is deleted by the letter strip, so `m e x` is cleaned as the digits `m x` |
| Cells.CleanExponentExample | nearby_stars.py:19-20 | the text `1e5` becomes 15, not 100000 |
| Numbers.ParseUnsigned | nearby_stars.py:20 | a parsed unsigned decimal is never negative |
| Numbers.Parse | nearby_stars.py:20 | a text that converts holds at least one digit and nothing but digits, points, signs and blanks, so a placeholder without digits is missing; a non-empty run of digits converts to its decimal value |
| Numbers.ParseBare | nearby_stars.py:20 | on a text without sign or surrounding blanks, conversion succeeds iff the unsigned grammar accepts it, with the same value |
| Numbers.ParseSign | nearby_stars.py:20 | a leading `-` negates the converted value and a leading `+` keeps it; neither changes whether the conversion succeeds |
| Cells.ParseDecimal | nearby_stars.py:20 | `4.2` converts to 4.2 |
| Cells.Coerce | nearby_stars.py:20 | the result is a number or missing; numbers and missing values pass unchanged; a text becomes a number iff it parses, and then that number is the parsed value |
| Cells.Clean | nearby_stars.py:19-20 | the result is a number exactly when the cell is text whose letter-free form parses, and then it is the parsed value; otherwise missing |
| Cells.CleanLetterFree | nearby_stars.py:19-20 | on a text without letters, cleaning is plain conversion |
| Cells.CleanWithUnit | nearby_stars.py:19-20 | a letter-free value followed by a unit suffix cleans as the bare value |
| Cells.CleanTemperature | nearby_stars.py:19-20 | a temperature written as digits followed by `K` cleans to its integer value |
| Cells.CleanDistance | nearby_stars.py:19-20 | `4.2ly` cleans to 4.2 |
| Cells.CleanDashes | nearby_stars.py:19-20 | a placeholder such as `----` cleans to a missing value |
| Cells.CleanDigitFree | nearby_stars.py:19-20 | a text without any digit cleans to a missing value |
| Cells.CleanWithHash | nearby_stars.py:19-20 | a text holding `#` cleans to a missing value: the strip keeps the `#` and no number holds one |
| Cells.CleanNaSpellings | nearby_stars.py:19-20 | every default missing-value spelling cleans to a missing value, so it makes no difference whether the reader recognised it |
| Tables.MapColumn | nearby_stars.py:19-20 | a column assignment keeps the names, the row count and well-formedness |
| Tables.MapColumnAt | nearby_stars.py:19-20 | a column assignment changes only that column, cell by cell, and keeps every label |
| Tables.CleanColumns | nearby_stars.py:17-20 | the loop keeps the names and the row count of the table, and can fail only with `ColumnNotFound` |
| Tables.CleanColumnsStopsAt | nearby_stars.py:18-19 | once a listed column is absent, the loop fails with `ColumnNotFound` for that column, whatever follows it |
| Tables.CleanColumnsCells | nearby_stars.py:17-20 | with distinct names, the loop succeeds iff every listed column exists; it keeps labels, cleans every cell of a listed column and leaves every other cell alone |
| Frames.Frame.constructor | nearby_stars.py:12 | a frame holds exactly the given table |
| Frames.Frame.MapColumn | nearby_stars.py:19-20 | the in-place column assignment produces exactly the table-level column assignment |
| Frames.Frame.CleanColumns | nearby_stars.py:17-20 | the in-place loop leaves exactly the table-level loop's result over the columns done, and stops only at an absent column |
| Cells.Divide | nearby_stars.py:24 | division keeps missing values missing, and the quotient times the divisor is the original radius |
| Cells.MaskedDivide | nearby_stars.py:23-26 | one masked division keeps the radius a number or missing, missing iff it was; where the tag equals the unit, the new radius times the factor is the old one; elsewhere the radius is unchanged |
| Cells.ToSolarRadii | nearby_stars.py:22-26 | a numeric radius tagged exactly `Rj` becomes x / 9.9604 and one tagged `Re` becomes x / 109.18; the result is a number or missing, missing iff the radius was; any other tag leaves it unchanged |
| Cells.SolarRadiiRoundTrip | nearby_stars.py:22-26 | multiplying back by the factor of the same tag recovers the original radius |
| Cells.MaskedPassesConvert | nearby_stars.py:23-26 | the two masked divisions, in either order, are the per-tag conversion |
| Cells.UnitRadii | nearby_stars.py:24-26 | one solar radius in Jupiter or Earth radii converts to 1, and one Jupiter radius to 1/9.9604 |
| Tables.MaskedDivideColumn | nearby_stars.py:23-24 | a masked division keeps names, row count and well-formedness |
| Tables.MaskedDivideColumnFrame | nearby_stars.py:23-24 | a masked division keeps the radius column numeric and touches no other column |
| Tables.ConvertColumn | nearby_stars.py:22-26 | the per-row conversion keeps names, row count and well-formedness |
| Tables.TwoPassesConvert | nearby_stars.py:22-26 | the `Rj` pass followed by the `Re` pass over the whole table equals the per-row conversion |
| Frames.Frame.DivideWhere | nearby_stars.py:23-24 | the in-place masked division produces exactly the table-level masked division |
| Frames.Frame.ConvertRadius | nearby_stars.py:22-26 | the two in-place passes leave exactly the converted table |
| Scripts.Normalized | nearby_stars.py:16-26 | the cleaning and conversion fail only with `ColumnNotFound`; on success they keep the names, the row count and well-formedness |
| Scripts.NormalizedCells | nearby_stars.py:16-26 | cleaning and conversion succeed iff the tag column and all five numeric columns exist; names and labels are kept; each radius is the cleaned value converted by the raw tag, each other listed cell is cleaned, every other cell is unchanged |
| Scripts.NormalizedNumeric | nearby_stars.py:17-20 | after cleaning, each of the five columns holds only numbers and missing values |
| Scripts.Normalize | nearby_stars.py:16-26 | running the loop and the two masked divisions on a frame gives exactly the specified cleaned table or the specified error |
| Cells.MinPresent | nearest_stars.py:57 | the minimum is missing iff every value is missing; otherwise it is one of the present values and no present value is smaller |
| Cells.MinPresentSkipsMissing | nearest_stars.py:57 | inserting a missing value anywhere does not change the minimum |
| Scripts.LowerColorBound | nearest_stars.py:57 | the lower colour bound is the smallest present distance, and missing iff no distance is present |
| Scripts.NearbyPrepared | nearby_stars.py:9-14 | a successfully prepared table is well formed |
| Scripts.NearbyPreparedColumns | nearby_stars.py:11-14 | after preparation `Radunit` and the five numeric columns are present and `Unnamed: 19` is not |
| Scripts.NearbyPreparedShape | nearby_stars.py:9-14 | preparation fails iff the file is empty, a requested name is missing, or fewer than three lines exist; otherwise row i is labelled i and holds the requested fields of line i+3 |
| Scripts.NearbyCatalogErrors | nearby_stars.py:9-26 | once the six columns are read, the cleaning cannot fail with a `KeyError` |
| Scripts.NearbyStars | nearby_stars.py:9-26 | the script's frame pipeline produces exactly the specified catalog |
| Scripts.NearestStars | nearest_stars.py:9-26 | the script produces exactly the specified catalog together with its lower colour bound (line 57) |
| Scripts.DataPrepared | data/nearest_stars.py:9-12 | a successfully prepared table is well formed |
| Scripts.DataPreparedShape | data/nearest_stars.py:9-12 | preparation fails iff fewer than three lines exist; otherwise all 25 header names are kept, and the rows are the lines after the third, labelled 2, 3, … in order |
| Scripts.DataCatalogErrors | data/nearest_stars.py:11-24 | the catalog is produced iff there are at least three lines and the header holds `Unnamed: 19` and the five numeric columns |
| Scripts.DataNearestStars | data/nearest_stars.py:9-24 | the script produces exactly the specified catalog together with its lower colour bound (line 44) |

## Left out

- The plotting (contours, scatter, labels, limits, saving the figure) and the Stefan–Boltzmann curves built with astropy and numpy are not modelled. Only `DIST.min()` from the colour limit is kept.
- File input is not modelled. The file is given as its sequence of lines, without line terminators.
- The reader's type inference is not modelled. Every field is read as text or missing. A column that pandas would read as floats would make `.str` raise; the model assumes that the five numeric columns are read as text, as the scripts' `.str` calls require.
- Conversion accepts plain decimals only: blanks, an optional sign, digits with at most one point. pandas also reads exponents, `inf` and `nan`, but no letter survives the letter strip, so those spellings cannot reach the conversion.
- The missing-value spellings are the default `na_values` of pandas 2; earlier releases do not count `None` among them.
- Numbers are exact reals, so IEEE-754 rounding of the parsed values and of the divisions is not modelled.
- The reader's handling of blank lines and of repeated header names (`.1` suffixes) is not modelled. The model assumes a file without blank lines and without repeated header names.
- Frames.Frame.CleanColumns: requires the listed names to be distinct. A repeated name would make `.str` run on an already numeric column, which raises. The scripts' list has no repeats.
- Frames.Frame.ConvertRadius: requires the radius column to hold only numbers and missing values. In the scripts this always holds after the cleaning loop; dividing text would raise a `TypeError`.
- Scripts.Normalize: requires the tag column not to be one of the five cleaned columns. This holds for `Radunit` and `Unnamed: 19`.
- Tag comparison is exact. A tag with different case or extra characters is treated like any other tag and leaves the radius unchanged.
