/**
 * One cell of the catalog table and what the cleaning pipeline does to it: reading a raw
 * field, removing letters, coercing to a number, converting a radius to solar radii, and
 * taking the smallest present value of a column.
 */
module Cells {
  import opened Wrappers
  import opened Strings
  import opened Numbers

  /**
   * A cell of an object-typed table column: a string, a number, or NaN, which is how the
   * table marks a missing value.
   */
  datatype Cell = Text(s: string) | Num(x: real) | NaN

  /** Number or missing, never a string: what the five cleaned columns hold. */
  predicate IsNumeric(c: Cell) {
    c.Num? || c.NaN?
  }

  /**
   * The spellings the reader takes for a missing value by default (its `na_values`), the
   * empty string included.
   */
  const DefaultNaValues: set<string> := {
    "", "#N/A", "#N/A N/A", "#NA", "-1.#IND", "-1.#QNAN", "-NaN", "-nan", "1.#IND", "1.#QNAN",
    "<NA>", "N/A", "NA", "NULL", "NaN", "None", "n/a", "nan", "null"
  }

  /**
   * How the fixed-width reader stores one raw field: stripped of blanks, and missing when
   * what remains is empty or one of the default missing-value spellings.
   */
  function ReadCell(field: string): (r: Cell)
    ensures !r.Num?
    ensures r.NaN? <==> Trim(field) in DefaultNaValues
    ensures r.Text? ==> r.s == Trim(field) && r.s != []
  {
    var t := Trim(field);
    if t in DefaultNaValues then NaN else Text(t)
  }

  /** A value written left-aligned into its column and padded with spaces reads back as itself. */
  lemma ReadPadded(v: string, n: nat)
    requires v != [] && !IsBlank(v[0]) && !IsBlank(v[|v| - 1]) && v !in DefaultNaValues
    ensures ReadCell(v + Spaces(n)) == Text(v)
  {
    TrimPadded(v, n);
  }

  /** A missing-value spelling, padded to its column, is read as missing. */
  lemma ReadNaSpelling(v: string, n: nat)
    requires v in DefaultNaValues - {""}
    ensures ReadCell(v + Spaces(n)) == NaN
  {
    assert v != [] && !IsBlank(v[0]) && !IsBlank(v[|v| - 1]);
    TrimPadded(v, n);
  }

  /** A field of blanks only is read as missing. */
  lemma ReadBlank(n: nat)
    ensures ReadCell(Spaces(n)) == NaN
  {
    TrimAllBlank(Spaces(n));
  }

  /**
   * `Series.str.replace(r'[a-zA-Z]', '', regex=True)` on one cell: a string loses its
   * letters; a cell that is not a string (NaN) comes out NaN.
   */
  function StripCell(c: Cell): (r: Cell)
    ensures r.Text? <==> c.Text?
    ensures r.Text? ==> LetterFree(r.s) && |r.s| <= |c.s|
    ensures c.Text? ==> r.s == StripLetters(c.s)
    ensures !c.Text? ==> r.NaN?
  {
    if c.Text? then Text(StripLetters(c.s)) else NaN
  }

  /** `pd.to_numeric(errors='coerce')` on one cell: a string that does not parse becomes NaN. */
  function Coerce(c: Cell): (r: Cell)
    ensures IsNumeric(r)
    ensures IsNumeric(c) ==> r == c
    ensures c.Text? ==> (r.Num? <==> Parse(c.s).Some?)
    ensures c.Text? && r.Num? ==> Parse(c.s) == Some(r.x)
  {
    match c
    case Text(s) => (match Parse(s) case Some(v) => Num(v) case None => NaN)
    case _ => c
  }

  /**
   * What the column loop does to one cell of Teff, Mv, DIST, RADIUS or BOL-LUM: the result
   * is a number or missing, never a string; it is a number exactly when the cell was a
   * string whose letter-free remainder parses, and then it is that parsed value.
   */
  function Clean(c: Cell): (r: Cell)
    ensures IsNumeric(r)
    ensures r.Num? <==> c.Text? && Parse(StripLetters(c.s)).Some?
    ensures r.Num? ==> Parse(StripLetters(c.s)) == Some(r.x)
  {
    Coerce(StripCell(c))
  }

  /** Cleaning a string that has no letters is plain coercion: letter removal is a no-op there. */
  lemma CleanLetterFree(s: string)
    requires LetterFree(s)
    ensures Clean(Text(s)) == Coerce(Text(s))
  {
    StripLettersOfLetterFree(s);
  }

  /** The letter strip is idempotent on every cell: a second strip finds no letter. */
  lemma CleanStripStable(c: Cell)
    ensures StripCell(StripCell(c)) == StripCell(c)
  {
    if c.Text? {
      StripLettersIdempotent(c.s);
    }
  }

  /**
   * In a cleaned column a default missing-value spelling ends up missing whether or not the
   * reader recognised it: what the letter strip leaves of it never parses.
   */
  lemma CleanNaSpellings(s: string)
    requires s in DefaultNaValues
    ensures Clean(Text(s)) == NaN
  {
    if s in {"-1.#IND", "-1.#QNAN", "1.#IND", "1.#QNAN"} {
      var h := if s[0] == '-' then 3 else 2;
      assert s[h] == '#';
      CleanWithHash(s, h);
    } else {
      assert forall i :: 0 <= i < |s| ==> !IsDigit(s[i]);
      CleanDigitFree(s);
    }
  }

  /** A text without digits cleans to missing. */
  lemma CleanDigitFree(s: string)
    requires forall i :: 0 <= i < |s| ==> !IsDigit(s[i])
    ensures Clean(Text(s)) == NaN
  {
    var r := StripLetters(s);
    forall i | 0 <= i < |r|
      ensures !IsDigit(r[i])
    {
      StripLettersCounts(s, r[i]);
      assert r[i] in multiset(r);
      var j :| 0 <= j < |s| && s[j] == r[i];
    }
  }

  /** A text holding `#` cleans to missing: the strip keeps the `#`, and no number holds one. */
  lemma CleanWithHash(s: string, h: nat)
    requires h < |s| && s[h] == '#'
    ensures Clean(Text(s)) == NaN
  {
    var r := StripLetters(s);
    assert '#' in r by {
      assert s[h] in multiset(s);
      StripLettersCounts(s, '#');
      assert '#' in multiset(r);
    }
    var i :| 0 <= i < |r| && r[i] == '#';
    assert !NumberChar(r[i]);
  }

  /** Letters after a letter-free value are dropped and the value is kept. */
  lemma StripSuffix(v: string, unit: string)
    requires LetterFree(v)
    requires forall i :: 0 <= i < |unit| ==> IsLetter(unit[i])
    ensures StripLetters(v + unit) == v
  {
    StripLettersConcat(v, unit);
    StripLettersOfLetterFree(v);
    StripLettersOfLetters(unit);
  }

  /** A value followed by unit letters ("5778K", "4.2ly") cleans to the value alone. */
  lemma CleanWithUnit(v: string, unit: string)
    requires LetterFree(v)
    requires forall i :: 0 <= i < |unit| ==> IsLetter(unit[i])
    ensures Clean(Text(v + unit)) == Coerce(Text(v))
  {
    StripSuffix(v, unit);
  }

  /** A temperature written as digits and the letter K cleans to the digits' value. */
  lemma CleanTemperature(digits: string)
    requires digits != [] && AllDigits(digits)
    ensures Clean(Text(digits + "K")) == Num(DigitsValue(digits) as real)
  {
    assert LetterFree(digits) by {
      forall i | 0 <= i < |digits| ensures !IsLetter(digits[i]) {
        assert IsDigit(digits[i]);
      }
    }
    CleanWithUnit(digits, "K");
  }

  /** A distance with its unit letters: "4.2ly" is 4.2. */
  lemma CleanDistance()
    ensures Clean(Text("4.2ly")) == Num(4.2)
  {
    assert LetterFree("4.2") by {
      assert forall i :: 0 <= i < 3 ==> "4.2"[i] in {'4', '.', '2'};
    }
    StripSuffix("4.2", "ly");
    assert "4.2ly" == "4.2" + "ly";
    ParseDecimal();
  }

  lemma ParseDecimal()
    ensures Parse("4.2") == Some(4.2)
  {
    assert ParseUnsigned("4.2") == Some(4.2) by {
      assert "4.2"[1..] == ".2";
      assert DotAt("4.2") == 1;
      assert "4.2"[..1] == "4" && "4.2"[2..] == "2";
      assert DigitsValue("4") == 4 && DigitsValue("2") == 2;
      assert Pow10(1) == 10;
    }
    ParseBare("4.2");
  }

  /** A placeholder without digits is missing, not zero. */
  lemma CleanDashes()
    ensures Clean(Text("----")) == NaN
  {
    StripLettersOfLetterFree("----");
    assert forall i :: 0 <= i < |"----"| ==> !IsDigit("----"[i]);
  }

  /**
   * The letter class includes `e`, so an exponent marker is removed before parsing: the
   * mantissa and exponent digits run together.
   */
  lemma CleanDropsExponent(mantissa: string, exponent: string)
    ensures Clean(Text(mantissa + "e" + exponent)) == Clean(Text(mantissa + exponent))
  {
    var m, x := mantissa, exponent;
    assert StripLetters(m + "e" + x) == StripLetters(m + x) by {
      StripLettersConcat(m + "e", x);
      StripLettersConcat(m, "e");
      StripLettersOfLetters("e");
      assert StripLetters(m + "e") == StripLetters(m) + [];
      StripLettersConcat(m, x);
    }
  }

  /** So "1e5" reads as 15 rather than 100000. */
  lemma CleanExponentExample()
    ensures Clean(Text("1e5")) == Num(15.0)
  {
    StripExponentExample();
    ParseFifteen();
    assert StripCell(Text("1e5")) == Text("15");
  }

  lemma StripExponentExample()
    ensures StripLetters("1e5") == "15"
  {
    StripLettersConcat("1", "e5");
    StripLettersConcat("e", "5");
    assert "1e5" == "1" + ("e" + "5");
    StripLettersOfLetterFree("1");
    StripLettersOfLetterFree("5");
    StripLettersOfLetters("e");
  }

  lemma ParseFifteen()
    ensures Parse("15") == Some(15.0)
  {
    assert DigitsValue("15") == 15 by {
      assert "15"[..1] == "1";
    }
    assert AllDigits("15");
  }

  /** How many Jupiter radii make one solar radius, as the catalog scripts use it. */
  const JupiterRadiiPerSolarRadius: real := 9.9604

  /** How many Earth radii make one solar radius, as the catalog scripts use it. */
  const EarthRadiiPerSolarRadius: real := 109.18

  /** `/= k` on one numeric cell: NaN stays NaN, a number is divided by k. */
  function Divide(c: Cell, k: real): (r: Cell)
    requires IsNumeric(c) && k != 0.0
    ensures IsNumeric(r) && (r.NaN? <==> c.NaN?)
    ensures r.Num? ==> r.x * k == c.x
  {
    if c.Num? then Num(c.x / k) else NaN
  }

  /** `df[tagColumn] == unit` for one row: only a string equal to `unit` matches; NaN never does. */
  predicate UnitIs(tag: Cell, unit: string) {
    tag == Text(unit)
  }

  /** The effect on one row of `df.loc[df[tagColumn] == unit, 'RADIUS'] /= k`. */
  function MaskedDivide(radius: Cell, tag: Cell, unit: string, k: real): (r: Cell)
    requires IsNumeric(radius) && k != 0.0
    ensures IsNumeric(r) && (r.NaN? <==> radius.NaN?)
    ensures UnitIs(tag, unit) && radius.Num? ==> r.x * k == radius.x
    ensures !UnitIs(tag, unit) ==> r == radius
  {
    if UnitIs(tag, unit) then Divide(radius, k) else radius
  }

  /**
   * The radius of a row in solar radii, by its unit tag: `Rj` is Jupiter radii, `Re` is
   * Earth radii, and any other tag, or none, already means solar radii.
   */
  function ToSolarRadii(radius: Cell, tag: Cell): (r: Cell)
    requires IsNumeric(radius)
    ensures IsNumeric(r) && (r.NaN? <==> radius.NaN?)
    ensures radius.Num? && UnitIs(tag, "Rj") ==> r == Num(radius.x / JupiterRadiiPerSolarRadius)
    ensures radius.Num? && UnitIs(tag, "Re") ==> r == Num(radius.x / EarthRadiiPerSolarRadius)
    ensures !UnitIs(tag, "Rj") && !UnitIs(tag, "Re") ==> r == radius
  {
    match tag
    case Text("Rj") => Divide(radius, JupiterRadiiPerSolarRadius)
    case Text("Re") => Divide(radius, EarthRadiiPerSolarRadius)
    case _ => radius
  }

  /** The inverse conversion: from solar radii back to the unit the tag names. */
  function FromSolarRadii(solar: Cell, tag: Cell): Cell
    requires IsNumeric(solar)
  {
    match (tag, solar)
    case (Text("Rj"), Num(x)) => Num(x * JupiterRadiiPerSolarRadius)
    case (Text("Re"), Num(x)) => Num(x * EarthRadiiPerSolarRadius)
    case _ => solar
  }

  /** Conversion loses nothing: converting back under the same tag gives the raw radius. */
  lemma SolarRadiiRoundTrip(radius: Cell, tag: Cell)
    requires IsNumeric(radius)
    ensures FromSolarRadii(ToSolarRadii(radius, tag), tag) == radius
  {
  }

  /**
   * The two masked divisions the scripts run one after the other (Jupiter first, then
   * Earth) amount to one conversion per row: the masks are disjoint, so no row is divided
   * twice, and their order does not matter.
   */
  lemma MaskedPassesConvert(radius: Cell, tag: Cell)
    requires IsNumeric(radius)
    ensures IsNumeric(MaskedDivide(radius, tag, "Rj", JupiterRadiiPerSolarRadius))
    ensures MaskedDivide(MaskedDivide(radius, tag, "Rj", JupiterRadiiPerSolarRadius),
                         tag, "Re", EarthRadiiPerSolarRadius)
            == ToSolarRadii(radius, tag)
    ensures IsNumeric(MaskedDivide(radius, tag, "Re", EarthRadiiPerSolarRadius))
    ensures MaskedDivide(MaskedDivide(radius, tag, "Re", EarthRadiiPerSolarRadius),
                         tag, "Rj", JupiterRadiiPerSolarRadius)
            == ToSolarRadii(radius, tag)
  {
  }

  /** One Jupiter radius and one Earth radius, written in their own units, convert to the stated ratios. */
  lemma UnitRadii()
    ensures ToSolarRadii(Num(9.9604), Text("Rj")) == Num(1.0)
    ensures ToSolarRadii(Num(109.18), Text("Re")) == Num(1.0)
    ensures ToSolarRadii(Num(1.0), Text("Rj")) == Num(1.0 / 9.9604)
  {
  }

  /**
   * `Series.min()` with NaN skipped: the least present value of a numeric column, None when
   * every value is missing. Missing entries are ignored, never read as zero.
   */
  function MinPresent(col: seq<Cell>): (r: Option<real>)
    requires forall i :: 0 <= i < |col| ==> IsNumeric(col[i])
    ensures r.None? <==> forall i :: 0 <= i < |col| ==> col[i].NaN?
    ensures r.Some? ==> Num(r.value) in col
    ensures r.Some? ==> forall i :: 0 <= i < |col| && col[i].Num? ==> r.value <= col[i].x
  {
    if col == [] then None
    else
      var rest := MinPresent(col[1..]);
      assert forall i :: 1 <= i < |col| ==> col[i] == col[1..][i - 1];
      if col[0].Num? then
        if rest.Some? && rest.value < col[0].x then rest else Some(col[0].x)
      else
        assert IsNumeric(col[0]);
        rest
  }

  /** A missing distance changes nothing about the bound. */
  lemma {:induction false} MinPresentSkipsMissing(a: seq<Cell>, b: seq<Cell>)
    requires forall i :: 0 <= i < |a| ==> IsNumeric(a[i])
    requires forall i :: 0 <= i < |b| ==> IsNumeric(b[i])
    ensures MinPresent(a + [NaN] + b) == MinPresent(a + b)
  {
    if a == [] {
      assert a + [NaN] + b == [NaN] + b;
      assert ([NaN] + b)[1..] == b;
      assert a + b == b;
    } else {
      assert (a + [NaN] + b)[1..] == a[1..] + [NaN] + b;
      assert (a + b)[1..] == a[1..] + b;
      MinPresentSkipsMissing(a[1..], b);
    }
  }
}
