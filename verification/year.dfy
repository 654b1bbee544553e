/** `year_column`: the first whole-word 4-digit number starting with 19 or
    20 in the Title, `\b(19\d{2}|20\d{2})\b`, or missing when there is none. */
module Year {
  import opened Wrappers
  import opened Text
  import opened Listings

  /** `\b(19\d{2}|20\d{2})\b` matches t at i. */
  predicate YearAt(t: string, i: int) {
    0 <= i && i + 4 <= |t|
    && IsBoundary(t, i) && IsBoundary(t, i + 4)
    && ((t[i] == '1' && t[i + 1] == '9') || (t[i] == '2' && t[i + 1] == '0'))
    && IsDigit(t[i + 2]) && IsDigit(t[i + 3])
  }

  /** y occurs in t at i with a non-word character or an end of t on each side. */
  predicate StandsAloneAt(t: string, y: string, i: int) {
    0 <= i && i + |y| <= |t| && t[i..i + |y|] == y
    && (i == 0 || !IsWordChar(t[i - 1]))
    && (i + |y| == |t| || !IsWordChar(t[i + |y|]))
  }

  /** `str.extract(r'\b(19\d{2}|20\d{2})\b')` on one Title. */
  function ExtractYear(t: string): (r: Option<string>)
    ensures r.None? <==> forall i :: !YearAt(t, i)
    ensures forall i :: YearAt(t, i) && (forall j :: 0 <= j < i ==> !YearAt(t, j)) ==> r == Some(t[i..i + 4])
    ensures r.Some? ==> |r.value| == 4 && (r.value[..2] == "19" || r.value[..2] == "20")
                        && IsDigit(r.value[2]) && IsDigit(r.value[3])
    ensures r.Some? ==> exists i :: StandsAloneAt(t, r.value, i)
  {
    var at := i => YearAt(t, i);
    assert forall j :: at(j) == YearAt(t, j);
    match Leftmost(at, 0, |t| + 1)
    case Some(i) =>
      var y := t[i..i + 4];
      assert y[..2] == [t[i], t[i + 1]];
      assert forall j :: YearAt(t, j) && (forall k :: 0 <= k < j ==> !YearAt(t, k)) ==> j == i;
      assert StandsAloneAt(t, y, i);
      Some(y)
    case None => None
  }

  /** `year_column`: each row's Year comes from its own Title alone; no other
      column changes. */
  function YearColumn(rows: seq<Listing>): (r: seq<Listing>)
    ensures |r| == |rows|
    ensures forall i :: 0 <= i < |rows| ==> r[i] == rows[i].(year := r[i].year)
    ensures forall i :: 0 <= i < |rows| ==> r[i].year == ExtractYear(rows[i].title)
  {
    seq(|rows|, i requires 0 <= i < |rows| => rows[i].(year := ExtractYear(rows[i].title)))
  }

  /** A year is never found inside a longer run of digits: no window of a
      run of five or more digits (such as 20145) is a year. */
  lemma NoYearInsideLongerNumber(t: string, i: int, m: int)
    requires 0 <= i && 5 <= m && i + m <= |t| && forall k :: i <= k < i + m ==> IsDigit(t[k])
    ensures forall j :: i <= j <= i + m - 4 ==> !YearAt(t, j)
  {
  }
}
