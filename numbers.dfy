/**
 * The number grammar `pd.to_numeric` applies to a letter-free remainder: optional
 * surrounding blanks, an optional sign, and decimal digits with at most one decimal
 * point, at least one digit in all. Values are exact reals.
 */
module Numbers {
  import opened Wrappers
  import opened Strings

  predicate IsDigit(c: char) {
    '0' <= c <= '9'
  }

  predicate AllDigits(s: string) {
    forall i :: 0 <= i < |s| ==> IsDigit(s[i])
  }

  /** The value of a run of decimal digits, most significant first. */
  function DigitsValue(s: string): nat
    requires AllDigits(s)
  {
    if s == [] then 0
    else DigitsValue(s[..|s| - 1]) * 10 + ((s[|s| - 1] as int) - ('0' as int))
  }

  function Pow10(k: nat): (p: nat)
    ensures p >= 1
  {
    if k == 0 then 1 else 10 * Pow10(k - 1)
  }

  /** Position of the first '.', or |s| when there is none. */
  function DotAt(s: string): (k: nat)
    ensures k <= |s|
    ensures k < |s| ==> s[k] == '.'
    ensures forall i :: 0 <= i < k ==> s[i] != '.'
  {
    if s == [] then 0
    else if s[0] == '.' then 0
    else 1 + DotAt(s[1..])
  }

  /** `digits`, `digits.`, `.digits` or `digits.digits`, with at least one digit. */
  function ParseUnsigned(s: string): (r: Option<real>)
    ensures r.Some? ==> r.value >= 0.0
  {
    var k := DotAt(s);
    var whole, frac := s[..k], if k < |s| then s[k + 1..] else [];
    if (whole != [] || frac != []) && AllDigits(whole) && AllDigits(frac) then
      var fraction := (DigitsValue(frac) as real) / (Pow10(|frac|) as real);
      QuotientNonNegative(DigitsValue(frac), Pow10(|frac|));
      Some(DigitsValue(whole) as real + fraction)
    else None
  }

  lemma QuotientNonNegative(a: nat, b: nat)
    requires b >= 1
    ensures (a as real) / (b as real) >= 0.0
  {
  }

  /** Whether a trimmed number text starts with a sign. */
  predicate Signed(t: string) {
    t != [] && (t[0] == '-' || t[0] == '+')
  }

  /** Whether a trimmed number text starts with a minus sign. */
  predicate Negative(t: string) {
    t != [] && t[0] == '-'
  }

  /** A trimmed number text without its sign. */
  function Unsigned(t: string): string {
    if Signed(t) then t[1..] else t
  }

  /**
   * Parses a cell remainder as a number, or yields None (a missing value) when it does
   * not parse. Whatever converts holds a digit and nothing but number characters, and a
   * plain run of digits converts to its decimal value.
   */
  function Parse(s: string): (r: Option<real>)
    ensures r.Some? ==> exists i :: 0 <= i < |s| && IsDigit(s[i])
    ensures r.Some? ==> forall i :: 0 <= i < |s| ==> NumberChar(s[i])
    ensures s != [] && AllDigits(s) ==> r.Some? && r.value == DigitsValue(s) as real
  {
    var t := Trim(s);
    DigitRun(s);
    match ParseUnsigned(Unsigned(t))
    case None => None
    case Some(v) =>
      ConvertedHoldsDigit(s);
      ConvertedChars(s);
      Some(if Negative(t) then -v else v)
  }

  /** A text whose trimmed, unsigned form the grammar accepts holds a digit. */
  lemma ConvertedHoldsDigit(s: string)
    requires ParseUnsigned(Unsigned(Trim(s))).Some?
    ensures exists i :: 0 <= i < |s| && IsDigit(s[i])
  {
    var t := Trim(s);
    var body := Unsigned(t);
    DigitIn(body);
    var i :| 0 <= i < |body| && IsDigit(body[i]);
    var j := if Signed(t) then i + 1 else i;
    assert body[i] == t[j];
    TrimIndex(s, j);
  }

  /** A plain run of digits is its own trim, carries no sign, and is an unsigned numeral. */
  lemma DigitRun(s: string)
    ensures s != [] && AllDigits(s) ==>
      && Trim(s) == s && !Negative(s) && Unsigned(s) == s
      && ParseUnsigned(s).Some? && ParseUnsigned(s).value == DigitsValue(s) as real
  {
    if s != [] && AllDigits(s) {
      assert IsDigit(s[0]) && IsDigit(s[|s| - 1]);
      TrimOfTrimmed(s);
      Bare(s);
      UnsignedDigits(s);
    }
  }

  lemma UnsignedDigits(s: string)
    requires s != [] && AllDigits(s)
    ensures ParseUnsigned(s).Some? && ParseUnsigned(s).value == DigitsValue(s) as real
  {
    var k := DotAt(s);
    assert k == |s| by { DotAbsent(s); }
    var whole: string, frac: string := s[..k], [];
    assert whole == s;
    assert AllDigits(frac) && DigitsValue(frac) == 0 && Pow10(|frac|) == 1;
    assert (DigitsValue(frac) as real) / (Pow10(|frac|) as real) == 0.0;
  }

  lemma {:induction false} DotAbsent(s: string)
    requires AllDigits(s)
    ensures DotAt(s) == |s|
  {
    if s != [] {
      DotAbsent(s[1..]);
    }
  }

  /** Anything ParseUnsigned accepts holds a digit. */
  lemma DigitIn(s: string)
    requires ParseUnsigned(s).Some?
    ensures exists i :: 0 <= i < |s| && IsDigit(s[i])
  {
    var k := DotAt(s);
    if k > 0 {
      assert IsDigit(s[..k][0]);
    } else {
      assert IsDigit(s[k + 1..][0]);
    }
  }

  /** The characters a number text can hold: digits, a point, a sign and blanks. */
  predicate NumberChar(c: char) {
    IsDigit(c) || c == '.' || c == '-' || c == '+' || IsBlank(c)
  }

  /** ParseUnsigned accepts only digits and points. */
  lemma UnsignedChars(s: string)
    requires ParseUnsigned(s).Some?
    ensures forall i :: 0 <= i < |s| ==> IsDigit(s[i]) || s[i] == '.'
  {
    var k := DotAt(s);
    forall i | 0 <= i < |s|
      ensures IsDigit(s[i]) || s[i] == '.'
    {
      if i < k {
        assert s[i] == s[..k][i];
      } else if i > k {
        assert s[i] == s[k + 1..][i - k - 1];
      }
    }
  }

  /** A text whose trimmed, unsigned form the grammar accepts holds nothing but number characters. */
  lemma ConvertedChars(s: string)
    requires ParseUnsigned(Unsigned(Trim(s))).Some?
    ensures forall i :: 0 <= i < |s| ==> NumberChar(s[i])
  {
    var t := Trim(s);
    TrimmedChars(t);
    var k := LeadingBlanks(s);
    forall i | 0 <= i < |s|
      ensures NumberChar(s[i])
    {
      if k <= i < k + |t| {
        TrimIndex(s, i - k);
      } else {
        TrimOutside(s, i);
      }
    }
  }

  /** The trimmed text of a number holds only digits, points and a leading sign. */
  lemma TrimmedChars(t: string)
    requires ParseUnsigned(Unsigned(t)).Some?
    ensures forall j :: 0 <= j < |t| ==> NumberChar(t[j])
  {
    var body := Unsigned(t);
    UnsignedChars(body);
    forall j | 0 <= j < |t|
      ensures NumberChar(t[j])
    {
      if Signed(t) && j > 0 {
        assert t[j] == body[j - 1];
      } else if !Signed(t) {
        assert t[j] == body[j];
      }
    }
  }

  /** Parse in terms of the trimmed text. */
  lemma ParseVia(s: string, t: string)
    requires Trim(s) == t
    ensures Parse(s).Some? <==> ParseUnsigned(Unsigned(t)).Some?
    ensures Parse(s).Some? ==>
      Parse(s).value == if Negative(t) then -ParseUnsigned(Unsigned(t)).value else ParseUnsigned(Unsigned(t)).value
  {
  }

  /** A number text that starts with a digit or a point carries no sign. */
  lemma Bare(s: string)
    requires s != [] && (IsDigit(s[0]) || s[0] == '.')
    ensures !Signed(s) && !Negative(s) && Unsigned(s) == s
  {
  }

  /** A sign put in front of a text without surrounding blanks survives trimming and is what Unsigned drops. */
  lemma PrefixTrimmed(s: string, c: char)
    requires s != [] && (c == '-' || c == '+') && !IsBlank(s[|s| - 1])
    ensures Trim([c] + s) == [c] + s && Unsigned([c] + s) == s && (Negative([c] + s) <==> c == '-')
  {
    PrefixEnds(s, c);
    TrimOfTrimmed([c] + s);
  }

  lemma PrefixEnds(s: string, c: char)
    requires s != [] && (c == '-' || c == '+')
    ensures ([c] + s)[0] == c && ([c] + s)[|s|] == s[|s| - 1]
    ensures Unsigned([c] + s) == s && (Negative([c] + s) <==> c == '-')
  {
    var t := [c] + s;
    assert t[0] == c && t[1..] == s;
  }

  /**
   * A leading `-` negates the parsed value and a leading `+` leaves it alone, for any
   * unsigned number text without surrounding blanks.
   */
  lemma ParseSign(s: string)
    requires s != [] && (IsDigit(s[0]) || s[0] == '.') && !IsBlank(s[|s| - 1])
    ensures Parse(['-'] + s).Some? <==> Parse(s).Some?
    ensures Parse(s).Some? ==> Parse(['-'] + s).value == -Parse(s).value
    ensures Parse(['+'] + s).Some? <==> Parse(s).Some?
    ensures Parse(s).Some? ==> Parse(['+'] + s).value == Parse(s).value
  {
    ParseBare(s);
    SignedUnsigned(s, '-');
    SignedUnsigned(s, '+');
  }

  /** Without a sign or surrounding blanks, conversion is the unsigned grammar alone. */
  lemma ParseBare(s: string)
    requires s != [] && (IsDigit(s[0]) || s[0] == '.') && !IsBlank(s[|s| - 1])
    ensures Parse(s).Some? <==> ParseUnsigned(s).Some?
    ensures Parse(s).Some? ==> Parse(s).value == ParseUnsigned(s).value
  {
    TrimOfTrimmed(s);
    Bare(s);
    ParseVia(s, s);
  }

  lemma SignedUnsigned(s: string, sign: char)
    requires s != [] && !IsBlank(s[|s| - 1]) && (sign == '-' || sign == '+')
    ensures Parse([sign] + s).Some? <==> ParseUnsigned(s).Some?
    ensures Parse([sign] + s).Some? ==>
      Parse([sign] + s).value == if sign == '-' then -ParseUnsigned(s).value else ParseUnsigned(s).value
  {
    PrefixTrimmed(s, sign);
    ParseVia([sign] + s, [sign] + s);
  }
}
