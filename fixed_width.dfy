/**
 * The fixed-width layout of the nearest-stars catalog and how one line of it is cut into
 * fields: field j occupies the half-open character range that starts at the sum of the
 * widths before it, and, as with Python slicing, a range running past the end of a short
 * line is clipped, so missing trailing fields come out empty.
 */
module FixedWidth {

  /** The 25 column widths shared by all three scripts. */
  const Widths: seq<nat> := [28, 12, 11, 8, 8, 9, 9, 10, 10, 9, 5, 11, 6, 9, 14, 10, 7, 6, 8, 7,
                             8, 9, 9, 9, 6]

  /** The running sum of the first j widths: where field j starts. */
  function Offset(ws: seq<nat>, j: nat): nat
    requires j <= |ws|
  {
    if j == 0 then 0 else Offset(ws, j - 1) + ws[j - 1]
  }

  /** The line length the layout covers. */
  function Sum(ws: seq<nat>): nat {
    Offset(ws, |ws|)
  }

  /** The layout has 25 columns covering 238 characters. */
  lemma WidthsLayout()
    ensures |Widths| == 25 && Sum(Widths) == 238
  {
    OffsetsUpTo25();
  }

  lemma OffsetsUpTo5()
    ensures Offset(Widths, 5) == 67
  {
    assert Offset(Widths, 1) == 28;
    assert Offset(Widths, 2) == 40;
    assert Offset(Widths, 3) == 51;
    assert Offset(Widths, 4) == 59;
  }

  lemma OffsetsUpTo10()
    ensures Offset(Widths, 10) == 114
  {
    OffsetsUpTo5();
    assert Offset(Widths, 6) == 76;
    assert Offset(Widths, 7) == 85;
    assert Offset(Widths, 8) == 95;
    assert Offset(Widths, 9) == 105;
  }

  lemma OffsetsUpTo15()
    ensures Offset(Widths, 15) == 159
  {
    OffsetsUpTo10();
    assert Offset(Widths, 11) == 119;
    assert Offset(Widths, 12) == 130;
    assert Offset(Widths, 13) == 136;
    assert Offset(Widths, 14) == 145;
  }

  lemma OffsetsUpTo20()
    ensures Offset(Widths, 20) == 197
  {
    OffsetsUpTo15();
    assert Offset(Widths, 16) == 169;
    assert Offset(Widths, 17) == 176;
    assert Offset(Widths, 18) == 182;
    assert Offset(Widths, 19) == 190;
  }

  lemma OffsetsUpTo25()
    ensures Offset(Widths, 25) == 238
  {
    OffsetsUpTo20();
    assert Offset(Widths, 21) == 205;
    assert Offset(Widths, 22) == 214;
    assert Offset(Widths, 23) == 223;
    assert Offset(Widths, 24) == 232;
  }

  function Min(a: nat, b: nat): nat {
    if a <= b then a else b
  }

  /** Python's `line[lo:hi]` for 0 <= lo <= hi: both ends clipped to the line. */
  function Clip(line: string, lo: nat, hi: nat): (f: string)
    requires lo <= hi
    ensures |f| <= hi - lo
    ensures |f| == if lo < |line| then Min(hi, |line|) - lo else 0
    ensures forall i :: 0 <= i < |f| ==> f[i] == line[lo + i]
  {
    line[Min(lo, |line|)..Min(hi, |line|)]
  }

  /**
   * Field j of a line: the slice from Offset(ws, j) of width ws[j], which is how the reader
   * turns the width list into column specifications.
   */
  function Field(line: string, ws: seq<nat>, j: nat): string
    requires j < |ws|
  {
    Clip(line, Offset(ws, j), Offset(ws, j) + ws[j])
  }

  /** The raw fields of one line, one per width. */
  function Cut(line: string, ws: seq<nat>): (fs: seq<string>)
    ensures |fs| == |ws|
  {
    seq(|ws|, j requires 0 <= j < |ws| => Field(line, ws, j))
  }

  lemma CutAt(line: string, ws: seq<nat>, j: nat)
    requires j < |ws|
    ensures Cut(line, ws)[j] == Field(line, ws, j)
  {
  }

  /** The text of a sequence of fields laid side by side. */
  function Concat(fs: seq<string>): string {
    if fs == [] then [] else Concat(fs[..|fs| - 1]) + fs[|fs| - 1]
  }

  lemma {:induction false} ConcatAppend(a: seq<string>, b: seq<string>)
    ensures Concat(a + b) == Concat(a) + Concat(b)
    decreases |b|
  {
    if b == [] {
      assert a + b == a;
    } else {
      var n := |b| - 1;
      assert (a + b)[..|a + b| - 1] == a + b[..n];
      ConcatAppend(a, b[..n]);
    }
  }

  lemma FieldIsSlice(line: string, ws: seq<nat>, j: nat)
    requires j < |ws|
    ensures Min(Offset(ws, j), |line|) <= Min(Offset(ws, j + 1), |line|) <= |line|
    ensures Cut(line, ws)[j] == line[Min(Offset(ws, j), |line|)..Min(Offset(ws, j + 1), |line|)]
  {
    CutAt(line, ws, j);
  }

  /** The first k fields together are the line up to where field k starts, clipped. */
  lemma {:induction false} CutPrefixCovers(line: string, ws: seq<nat>, k: nat)
    requires k <= |ws|
    ensures Concat(Cut(line, ws)[..k]) == line[..Min(Offset(ws, k), |line|)]
  {
    if k > 0 {
      var fs := Cut(line, ws);
      CutPrefixCovers(line, ws, k - 1);
      assert fs[..k][..k - 1] == fs[..k - 1];
      var lo, hi := Min(Offset(ws, k - 1), |line|), Min(Offset(ws, k), |line|);
      FieldIsSlice(line, ws, k - 1);
      assert Concat(fs[..k]) == line[..lo] + line[lo..hi];
      assert line[..lo] + line[lo..hi] == line[..hi];
    }
  }

  /**
   * The fields are consecutive and do not overlap: laid side by side they give back
   * exactly the part of the line the layout covers.
   */
  lemma CutCovers(line: string, ws: seq<nat>)
    ensures Concat(Cut(line, ws)) == line[..Min(Sum(ws), |line|)]
  {
    CutPrefixCovers(line, ws, |ws|);
    assert Cut(line, ws)[..|ws|] == Cut(line, ws);
  }

  /** Where field j starts in a line built from fields of the declared widths. */
  lemma {:induction false} OffsetOfFields(fs: seq<string>, ws: seq<nat>, j: nat)
    requires |fs| == |ws| && j <= |ws|
    requires forall i :: 0 <= i < |ws| ==> |fs[i]| == ws[i]
    ensures Offset(ws, j) == |Concat(fs[..j])|
  {
    if j > 0 {
      OffsetOfFields(fs, ws, j - 1);
      assert fs[..j][..j - 1] == fs[..j - 1];
    }
  }

  /**
   * Round trip: a line written field by field at the declared widths (with anything after
   * the last column) is cut back into exactly those fields.
   */
  lemma CutRoundTrip(fs: seq<string>, rest: string, ws: seq<nat>)
    requires |fs| == |ws|
    requires forall j :: 0 <= j < |ws| ==> |fs[j]| == ws[j]
    ensures Cut(Concat(fs) + rest, ws) == fs
  {
    forall j | 0 <= j < |ws|
      ensures Cut(Concat(fs) + rest, ws)[j] == fs[j]
    {
      FieldRoundTrip(fs, rest, ws, j);
    }
  }

  lemma FieldRoundTrip(fs: seq<string>, rest: string, ws: seq<nat>, j: nat)
    requires |fs| == |ws| && j < |ws|
    requires forall j :: 0 <= j < |ws| ==> |fs[j]| == ws[j]
    ensures Cut(Concat(fs) + rest, ws)[j] == fs[j]
  {
    var line := Concat(fs) + rest;
    OffsetOfFields(fs, ws, j);
    assert fs == fs[..j] + [fs[j]] + fs[j + 1..];
    ConcatAppend(fs[..j] + [fs[j]], fs[j + 1..]);
    ConcatAppend(fs[..j], [fs[j]]);
    assert Concat([fs[j]]) == fs[j] by {
      assert [fs[j]][..0] == [];
    }
    var pre := Concat(fs[..j]);
    assert line == pre + fs[j] + (Concat(fs[j + 1..]) + rest);
    SliceMiddle(pre, fs[j], Concat(fs[j + 1..]) + rest);
    var o := Offset(ws, j);
    assert o == |pre| && o + ws[j] <= |line|;
    CutAt(line, ws, j);
  }

  lemma SliceMiddle(a: string, b: string, c: string)
    ensures (a + b + c)[|a|..|a| + |b|] == b
  {
    assert forall i :: 0 <= i < |b| ==> (a + b + c)[|a| + i] == b[i];
  }
}
