/**
 * Character-level text operations of the cleaning pipeline: the letter removal done by
 * `str.replace(r'[a-zA-Z]', '', regex=True)`, the whitespace trimming the fixed-width
 * reader applies to every field, and the decimal rendering pandas uses for the
 * `Unnamed: <position>` name of a column with a blank header.
 */
module Strings {

  /** The character class `[a-zA-Z]`: ASCII letters only. */
  predicate IsLetter(c: char) {
    'a' <= c <= 'z' || 'A' <= c <= 'Z'
  }

  predicate LetterFree(s: string) {
    forall i :: 0 <= i < |s| ==> !IsLetter(s[i])
  }

  /** Deletes every match of `[a-zA-Z]` (including the exponent markers `e` and `E`). */
  function StripLetters(s: string): (r: string)
    ensures |r| <= |s|
    ensures LetterFree(r)
  {
    if s == [] then []
    else (if IsLetter(s[0]) then [] else [s[0]]) + StripLetters(s[1..])
  }

  /** Removal works character by character, so it distributes over concatenation: order is kept. */
  lemma {:induction false} StripLettersConcat(a: string, b: string)
    ensures StripLetters(a + b) == StripLetters(a) + StripLetters(b)
  {
    if a == [] {
      assert a + b == b;
    } else {
      assert (a + b)[1..] == a[1..] + b;
      StripLettersConcat(a[1..], b);
    }
  }

  /** Every non-letter survives as often as it occurs; every letter is gone. */
  lemma {:induction false} StripLettersCounts(s: string, c: char)
    ensures multiset(StripLetters(s))[c] == if IsLetter(c) then 0 else multiset(s)[c]
  {
    if s != [] {
      assert s == [s[0]] + s[1..];
      StripLettersCounts(s[1..], c);
    }
  }

  /** A string without letters is left as it is. */
  lemma {:induction false} StripLettersOfLetterFree(s: string)
    requires LetterFree(s)
    ensures StripLetters(s) == s
  {
    if s != [] {
      StripLettersOfLetterFree(s[1..]);
    }
  }

  /** A run of letters disappears entirely. */
  lemma {:induction false} StripLettersOfLetters(s: string)
    requires forall i :: 0 <= i < |s| ==> IsLetter(s[i])
    ensures StripLetters(s) == []
  {
    if s != [] {
      StripLettersOfLetters(s[1..]);
    }
  }

  /** Applying the regex replacement twice gives what applying it once gives. */
  lemma StripLettersIdempotent(s: string)
    ensures StripLetters(StripLetters(s)) == StripLetters(s)
  {
    StripLettersOfLetterFree(StripLetters(s));
  }

  /** The characters the fixed-width reader strips from both ends of a field. */
  predicate IsBlank(c: char) {
    c == ' ' || c == '\t' || c == '\r' || c == '\n'
  }

  /** The number of blanks `s` starts with. */
  function LeadingBlanks(s: string): (n: nat)
    ensures n <= |s| && (n < |s| ==> !IsBlank(s[n]))
    ensures forall i :: 0 <= i < n ==> IsBlank(s[i])
  {
    if s != [] && IsBlank(s[0]) then
      var n := 1 + LeadingBlanks(s[1..]);
      assert forall i :: 1 <= i < n ==> s[i] == s[1..][i - 1];
      n
    else 0
  }

  /** The number of blanks `s` ends with. */
  function TrailingBlanks(s: string): (n: nat)
    ensures n <= |s| && (n < |s| ==> !IsBlank(s[|s| - 1 - n]))
    ensures forall i :: |s| - n <= i < |s| ==> IsBlank(s[i])
  {
    if s != [] && IsBlank(s[|s| - 1]) then
      var n := 1 + TrailingBlanks(s[..|s| - 1]);
      assert forall i :: |s| - n <= i < |s| - 1 ==> s[i] == s[..|s| - 1][i];
      n
    else 0
  }

  function TrimStart(s: string): (r: string)
    ensures |r| <= |s| && r == s[|s| - |r|..]
    ensures r != [] ==> !IsBlank(r[0])
    ensures forall i :: 0 <= i < |s| - |r| ==> IsBlank(s[i])
  {
    s[LeadingBlanks(s)..]
  }

  function TrimEnd(s: string): (r: string)
    ensures |r| <= |s| && r == s[..|r|]
    ensures r != [] ==> !IsBlank(r[|r| - 1])
    ensures forall i :: |r| <= i < |s| ==> IsBlank(s[i])
  {
    s[..|s| - TrailingBlanks(s)]
  }

  /**
   * `str.strip` over the blank characters: the result is a contiguous piece of `s` that
   * starts and ends with a non-blank, and everything cut away on either side is blank.
   */
  function Trim(s: string): (r: string)
    ensures r != [] ==> !IsBlank(r[0]) && !IsBlank(r[|r| - 1])
    ensures LeadingBlanks(s) + |r| <= |s|
    ensures forall i :: 0 <= i < |r| ==> r[i] == s[LeadingBlanks(s) + i]
    ensures forall i :: LeadingBlanks(s) + |r| <= i < |s| ==> IsBlank(s[i])
  {
    TrimEnd(TrimStart(s))
  }

  /** The j-th character of the trim is the j-th after the leading blanks. */
  lemma TrimIndex(s: string, j: int)
    requires 0 <= j < |Trim(s)|
    ensures LeadingBlanks(s) + j < |s| && Trim(s)[j] == s[LeadingBlanks(s) + j]
  {
    assert |TrimStart(s)| == |s| - LeadingBlanks(s);
  }

  /** Every character outside the trim is blank. */
  lemma TrimOutside(s: string, i: int)
    requires 0 <= i < |s| && !(LeadingBlanks(s) <= i < LeadingBlanks(s) + |Trim(s)|)
    ensures IsBlank(s[i])
  {
    assert |TrimStart(s)| == |s| - LeadingBlanks(s);
  }

  /** A string that already starts and ends with a non-blank is its own trim. */
  lemma TrimOfTrimmed(s: string)
    requires s != [] ==> !IsBlank(s[0]) && !IsBlank(s[|s| - 1])
    ensures Trim(s) == s
  {
  }

  function Spaces(n: nat): (r: string)
    ensures |r| == n && forall i :: 0 <= i < n ==> r[i] == ' '
  {
    if n == 0 then [] else [' '] + Spaces(n - 1)
  }

  /** Right-padding a field to its column width is undone by trimming. */
  lemma {:induction false} TrimPadded(f: string, n: nat)
    requires f != [] ==> !IsBlank(f[0]) && !IsBlank(f[|f| - 1])
    ensures Trim(f + Spaces(n)) == f
  {
    if f == [] {
      assert f + Spaces(n) == Spaces(n);
      TrimAllBlank(Spaces(n));
    } else {
      var p := f + Spaces(n);
      assert TrimStart(p) == p;
      TrimEndPadded(f, n);
    }
  }

  lemma {:induction false} TrimAllBlank(s: string)
    requires forall i :: 0 <= i < |s| ==> IsBlank(s[i])
    ensures Trim(s) == []
  {
  }

  lemma {:induction false} TrimEndPadded(f: string, n: nat)
    requires f != [] && !IsBlank(f[|f| - 1])
    ensures TrimEnd(f + Spaces(n)) == f
  {
    if n == 0 {
      assert f + Spaces(n) == f;
    } else {
      var p := f + Spaces(n);
      assert p[..|p| - 1] == f + Spaces(n - 1) by {
        assert Spaces(n) == Spaces(n - 1) + [' '] by { SpacesSnoc(n); }
      }
      TrimEndPadded(f, n - 1);
    }
  }

  lemma SpacesSnoc(n: nat)
    requires n > 0
    ensures Spaces(n) == Spaces(n - 1) + [' ']
  {
  }

  /** The decimal digit character for 0 <= d < 10. */
  function DigitChar(d: nat): (c: char)
    requires d < 10
    ensures '0' <= c <= '9' && (c as int) - ('0' as int) == d
  {
    ['0', '1', '2', '3', '4', '5', '6', '7', '8', '9'][d]
  }

  /** Python's `str(n)` for a natural number: most significant digit first, no leading zero. */
  function NatToString(n: nat): (r: string)
    ensures r != [] && forall i :: 0 <= i < |r| ==> '0' <= r[i] <= '9'
    ensures |r| > 1 ==> r[0] != '0'
  {
    if n < 10 then [DigitChar(n)] else NatToString(n / 10) + [DigitChar(n % 10)]
  }
}
