/** `colour_column`: the colour is the trailing letter word of the Title,
    with two spelling fixes. Rows without one are then searched, by plain
    substring test on their Description, for any value of the column's
    vocabulary (`unique()` of the column, the missing value included and
    rendered by `str()` as "nan"); every hit overwrites, so the last hit in
    vocabulary order wins. What is still missing becomes "Not Specified". */
module Colour {
  import opened Wrappers
  import opened Text
  import opened Listings

  /** What `str()` makes of a missing cell. */
  const MissingText: string := "nan"

  /** Where `$` matches: the end of the title, or just before a final newline. */
  function LineEnd(t: string): (e: nat)
    ensures e <= |t|
    ensures e == |t| || (e == |t| - 1 && t[e] == '\n')
  {
    if |t| > 0 && t[|t| - 1] == '\n' then |t| - 1 else |t|
  }

  /** `(\b[A-Za-z]+)$` matches at position i. */
  predicate ColourAt(t: string, i: int) {
    0 <= i < LineEnd(t) && IsBoundary(t, i) && forall k :: i <= k < LineEnd(t) ==> IsLetter(t[k])
  }

  /** `str.extract(r'(\b[A-Za-z]+)$')` on one Title. */
  function TitleColour(t: string): (r: Option<string>)
    ensures forall i :: ColourAt(t, i) ==> r == Some(t[i..LineEnd(t)])
    ensures r.None? <==> forall i :: !ColourAt(t, i)
    ensures r.Some? ==> |r.value| > 0 && forall k :: 0 <= k < |r.value| ==> IsLetter(r.value[k])
    ensures r.Some? ==> var i := LineEnd(t) - |r.value|;
                        0 <= i && t[i..LineEnd(t)] == r.value && (i == 0 || !IsWordChar(t[i - 1]))
  {
    var e := LineEnd(t);
    var i := e - RunBefore(t, e, IsLetter);
    assert forall j :: ColourAt(t, j) ==> j == i by {
      forall j | ColourAt(t, j) ensures j == i {
      }
    }
    if i < e && IsBoundary(t, i) then
      assert ColourAt(t, i);
      Some(t[i..e])
    else
      None
  }

  /** The two spelling fixes: 'white' -> 'White', 'Burgandy' -> 'Burgundy'. */
  function Canonical(c: string): string {
    if c == "white" then "White"
    else if c == "Burgandy" then "Burgundy"
    else c
  }

  /** The first pass: a Title's colour after the spelling fixes. */
  function ExtractColour(t: string): (r: Option<string>)
    ensures r.None? <==> TitleColour(t).None?
    ensures r.Some? ==> |r.value| > 0 && forall k :: 0 <= k < |r.value| ==> IsLetter(r.value[k])
    ensures r != Some("white") && r != Some("Burgandy")
    ensures TitleColour(t) == Some("white") ==> r == Some("White")
    ensures TitleColour(t) == Some("Burgandy") ==> r == Some("Burgundy")
    ensures TitleColour(t).Some? && TitleColour(t).value != "white" && TitleColour(t).value != "Burgandy"
            ==> r == TitleColour(t)
  {
    match TitleColour(t)
    case Some(c) => Some(Canonical(c))
    case None => None
  }

  /** The spelling fixes applied twice are applied once. */
  lemma CanonicalIdempotent(c: string)
    ensures Canonical(Canonical(c)) == Canonical(c)
  {
  }

  /** Position of the first occurrence of x in xs. */
  function FirstIndex<T(==)>(xs: seq<T>, x: T): (i: nat)
    requires x in xs
    ensures i < |xs| && xs[i] == x
    ensures forall j :: 0 <= j < i ==> xs[j] != x
  {
    if xs[0] == x then 0 else 1 + FirstIndex(xs[1..], x)
  }

  lemma FirstIndexOfPrefix<T>(xs: seq<T>, n: nat, x: T)
    requires n <= |xs| && x in xs[..n]
    ensures FirstIndex(xs, x) == FirstIndex(xs[..n], x)
  {
    assert forall k :: 0 <= k < n ==> xs[..n][k] == xs[k];
  }

  /** `Series.unique()`: the distinct values of xs in order of first appearance. */
  function Distinct<T(==,!new)>(xs: seq<T>): (u: seq<T>)
    ensures forall x :: x in u <==> x in xs
    ensures forall i, j :: 0 <= i < j < |u| ==> u[i] != u[j]
    ensures forall i, j :: 0 <= i < j < |u| ==> FirstIndex(xs, u[i]) < FirstIndex(xs, u[j])
  {
    if |xs| == 0 then []
    else
      var init := xs[..|xs| - 1];
      var last := xs[|xs| - 1];
      var u := Distinct(init);
      assert xs == init + [last];
      assert forall k :: 0 <= k < |u| ==> FirstIndex(xs, u[k]) == FirstIndex(init, u[k]) by {
        forall k | 0 <= k < |u| ensures FirstIndex(xs, u[k]) == FirstIndex(init, u[k]) {
          FirstIndexOfPrefix(xs, |xs| - 1, u[k]);
        }
      }
      if last in u then u
      else
        assert FirstIndex(xs, last) == |xs| - 1;
        u + [last]
  }

  /** How a vocabulary entry is written when it is tested and stored: `str(j)`. */
  function Rendered(v: Option<string>): string {
    v.GetOr(MissingText)
  }

  /** Entry k of vocab is found in d and no later entry is. */
  predicate LastFoundAt(vocab: seq<Option<string>>, d: string, k: int) {
    0 <= k < |vocab| && Contains(d, Rendered(vocab[k]))
    && forall j :: k < j < |vocab| ==> !Contains(d, Rendered(vocab[j]))
  }

  /** No entry of vocab is found in d. */
  predicate NoneFound(vocab: seq<Option<string>>, d: string) {
    forall k :: 0 <= k < |vocab| ==> !Contains(d, Rendered(vocab[k]))
  }

  /** The inner loop over the vocabulary for one row with no colour: each
      entry found in the description is written into the cell, with no break. */
  function ScanDescription(vocab: seq<Option<string>>, d: string, cell: Option<string>): (r: Option<string>)
    ensures NoneFound(vocab, d) ==> r == cell
    ensures forall k :: LastFoundAt(vocab, d, k) ==> r == Some(Rendered(vocab[k]))
  {
    if vocab == [] then cell
    else
      var cell' := if Contains(d, Rendered(vocab[0])) then Some(Rendered(vocab[0])) else cell;
      var r := ScanDescription(vocab[1..], d, cell');
      assert forall k :: LastFoundAt(vocab, d, k) ==> r == Some(Rendered(vocab[k])) by {
        forall k | LastFoundAt(vocab, d, k) ensures r == Some(Rendered(vocab[k])) {
          if k > 0 {
            assert LastFoundAt(vocab[1..], d, k - 1);
          } else {
            assert NoneFound(vocab[1..], d);
          }
        }
      }
      r
  }

  /** The colour a row ends with, given the vocabulary. */
  function ResolveColour(vocab: seq<Option<string>>, row: Listing): string {
    match ExtractColour(row.title)
    case Some(c) => c
    case None => ScanDescription(vocab, row.description, None).GetOr(NotSpecified)
  }

  /** Both passes over the table and the final `fillna`, for a given vocabulary. */
  function FillColours(rows: seq<Listing>, vocab: seq<Option<string>>): (r: seq<Listing>)
    ensures |r| == |rows|
    ensures forall i :: 0 <= i < |rows| ==> r[i] == rows[i].(colour := r[i].colour)
    ensures forall i :: 0 <= i < |rows| ==> r[i].colour.Some?
    ensures forall i :: 0 <= i < |rows| && ExtractColour(rows[i].title).Some?
              ==> r[i].colour == ExtractColour(rows[i].title)
    ensures forall i, k :: 0 <= i < |rows| && ExtractColour(rows[i].title).None?
              && LastFoundAt(vocab, rows[i].description, k)
              ==> r[i].colour == Some(Rendered(vocab[k]))
    ensures forall i :: 0 <= i < |rows| && ExtractColour(rows[i].title).None?
              && NoneFound(vocab, rows[i].description)
              ==> r[i].colour == Some(NotSpecified)
  {
    seq(|rows|, i requires 0 <= i < |rows| => rows[i].(colour := Some(ResolveColour(vocab, rows[i]))))
  }

  /** The first-pass colour of every row, in row order. */
  function TitleColours(rows: seq<Listing>): (cs: seq<Option<string>>)
    ensures |cs| == |rows|
    ensures forall i :: 0 <= i < |rows| ==> cs[i] == ExtractColour(rows[i].title)
  {
    seq(|rows|, i requires 0 <= i < |rows| => ExtractColour(rows[i].title))
  }

  /** `list(df['Colour'].unique())` after the first pass. */
  function Vocabulary(rows: seq<Listing>): (v: seq<Option<string>>)
    ensures forall c :: c in v <==> exists i :: 0 <= i < |rows| && ExtractColour(rows[i].title) == c
    ensures forall i, j :: 0 <= i < j < |v| ==> v[i] != v[j]
    ensures forall c :: c in v <==> c in TitleColours(rows)
    ensures forall i, j :: 0 <= i < j < |v| ==>
              FirstIndex(TitleColours(rows), v[i]) < FirstIndex(TitleColours(rows), v[j])
  {
    TitleColoursMembers(rows);
    Distinct(TitleColours(rows))
  }

  /** A colour is among the title colours exactly when some row's title yields it. */
  lemma TitleColoursMembers(rows: seq<Listing>)
    ensures forall c :: c in TitleColours(rows) <==> exists i :: 0 <= i < |rows| && ExtractColour(rows[i].title) == c
  {
    var cs := TitleColours(rows);
    forall c ensures c in cs <==> exists i :: 0 <= i < |rows| && ExtractColour(rows[i].title) == c {
      if c in cs {
        var i :| 0 <= i < |cs| && cs[i] == c;
      }
    }
  }

  /** `colour_column` as written. */
  function ColourColumn(rows: seq<Listing>): (r: seq<Listing>)
    ensures |r| == |rows|
    ensures forall i :: 0 <= i < |rows| ==> r[i] == rows[i].(colour := r[i].colour)
    ensures forall i :: 0 <= i < |rows| ==> r[i].colour.Some?
    ensures forall i :: 0 <= i < |rows| && ExtractColour(rows[i].title).Some?
              ==> r[i].colour == ExtractColour(rows[i].title)
  {
    FillColours(rows, Vocabulary(rows))
  }

  /** Either nothing is found, or some entry is the last one found. */
  lemma {:induction false} LastFoundExists(vocab: seq<Option<string>>, d: string)
    ensures NoneFound(vocab, d) || exists k :: LastFoundAt(vocab, d, k)
  {
    if vocab != [] {
      var n := |vocab| - 1;
      if Contains(d, Rendered(vocab[n])) {
        assert LastFoundAt(vocab, d, n);
      } else {
        LastFoundExists(vocab[..n], d);
        if !NoneFound(vocab[..n], d) {
          var k :| LastFoundAt(vocab[..n], d, k);
          assert LastFoundAt(vocab, d, k);
        } else {
          assert forall k :: 0 <= k < n ==> vocab[k] == vocab[..n][k];
        }
      }
    }
  }

  /** A word of letters only is never the placeholder, which holds a space. */
  lemma LettersAreNotPlaceholder(w: string)
    requires forall k :: 0 <= k < |w| ==> IsLetter(w[k])
    ensures w != NotSpecified
  {
    if |w| > 3 {
      assert IsLetter(w[3]);
    }
    assert !IsLetter(NotSpecified[3]);
  }

  /** A rendered vocabulary entry is never the placeholder, which holds a space. */
  lemma RenderedIsNotPlaceholder(rows: seq<Listing>, v: Option<string>)
    requires v in Vocabulary(rows)
    ensures Rendered(v) != NotSpecified
    ensures v == None || exists k :: 0 <= k < |rows| && ExtractColour(rows[k].title) == v
  {
    var cs := TitleColours(rows);
    assert v in cs;
    var k :| 0 <= k < |cs| && cs[k] == v;
    if v.Some? {
      LettersAreNotPlaceholder(v.value);
    }
  }

  /** The second pass, for a row whose Title gave no colour: the row gets
      "Not Specified" exactly when no vocabulary entry occurs in its
      Description; otherwise it gets the last entry, in vocabulary order, that
      occurs there, which is "nan" or the first-pass colour of some row. */
  lemma ColourFallback(rows: seq<Listing>, i: int)
    requires 0 <= i < |rows| && ExtractColour(rows[i].title).None?
    ensures var c := ColourColumn(rows)[i].colour.value;
            (c == NotSpecified <==> NoneFound(Vocabulary(rows), rows[i].description))
            && (c != NotSpecified ==> exists k :: LastFoundAt(Vocabulary(rows), rows[i].description, k)
                                                 && c == Rendered(Vocabulary(rows)[k]))
            && (c != NotSpecified ==> Contains(rows[i].description, c))
            && (c != NotSpecified ==>
                  c == MissingText || exists k :: 0 <= k < |rows| && ExtractColour(rows[k].title) == Some(c))
  {
    var vocab := Vocabulary(rows);
    var d := rows[i].description;
    var c := ColourColumn(rows)[i].colour.value;
    LastFoundExists(vocab, d);
    if !NoneFound(vocab, d) {
      var k :| LastFoundAt(vocab, d, k);
      assert c == Rendered(vocab[k]);
      RenderedIsNotPlaceholder(rows, vocab[k]);
    }
  }

  /** `colour_column` depends only on Title and Description and overwrites the
      whole Colour column, so running it again changes nothing. */
  lemma ColourColumnIdempotent(rows: seq<Listing>)
    ensures ColourColumn(ColourColumn(rows)) == ColourColumn(rows)
  {
    var r := ColourColumn(rows);
    assert TitleColours(r) == TitleColours(rows);
    var r2 := ColourColumn(r);
    assert forall i :: 0 <= i < |rows| ==> r2[i] == r[i];
  }

  /** The vocabulary without its missing entry. */
  function DropMissing(vs: seq<Option<string>>): (r: seq<Option<string>>)
    ensures forall v :: v in r <==> v in vs && v.Some?
  {
    if vs == [] then []
    else (if vs[0].Some? then [vs[0]] else []) + DropMissing(vs[1..])
  }

  /** The vocabulary the fallback evidently means to search for: the colours
      recognised in titles, without the missing value. */
  function IntendedVocabulary(rows: seq<Listing>): seq<Option<string>> {
    DropMissing(Vocabulary(rows))
  }

  /** `colour_column` with the corrected vocabulary. */
  function ColourColumnIntended(rows: seq<Listing>): (r: seq<Listing>)
    ensures |r| == |rows|
    ensures forall i :: 0 <= i < |rows| ==> r[i] == rows[i].(colour := r[i].colour)
    ensures forall i :: 0 <= i < |rows| ==> r[i].colour.Some?
    ensures forall i :: 0 <= i < |rows| && ExtractColour(rows[i].title).Some?
              ==> r[i].colour == ExtractColour(rows[i].title)
  {
    FillColours(rows, IntendedVocabulary(rows))
  }

  /** With the corrected vocabulary every colour is "Not Specified" or a colour
      that some row's Title actually carries. */
  lemma IntendedColourIsRecognised(rows: seq<Listing>, i: int)
    requires 0 <= i < |rows|
    ensures var c := ColourColumnIntended(rows)[i].colour;
            c == Some(NotSpecified) || exists k :: 0 <= k < |rows| && ExtractColour(rows[k].title) == c
  {
    var vocab := IntendedVocabulary(rows);
    var d := rows[i].description;
    if ExtractColour(rows[i].title).None? {
      LastFoundExists(vocab, d);
      if !NoneFound(vocab, d) {
        var k :| LastFoundAt(vocab, d, k);
        assert vocab[k] in vocab;
        RenderedIsNotPlaceholder(rows, vocab[k]);
        assert Rendered(vocab[k]) == vocab[k].value;
      }
    }
  }

  /** As written, a row whose Title ends in no word and whose Description
      mentions "maintenance" is given the colour "nan", which no Title carries. */
  lemma MissingValueBecomesColour()
    ensures var rows := [Listing("Toyota Camry 2015", "Full maintenance history",
                                 PriceText("5,000,000"), None, None, None, None)];
            && ColourColumn(rows)[0].colour == Some(MissingText)
            && ExtractColour(rows[0].title).None?
            && ColourColumnIntended(rows)[0].colour == Some(NotSpecified)
  {
    var rows := [Listing("Toyota Camry 2015", "Full maintenance history",
                         PriceText("5,000,000"), None, None, None, None)];
    var t := rows[0].title;
    var d := rows[0].description;
    assert LineEnd(t) == 17;
    assert !IsLetter(t[16]);
    assert TitleColour(t).None?;
    assert TitleColours(rows) == [None];
    assert Vocabulary(rows) == [None];
    assert d[11..14] == MissingText;
    assert OccursAt(d, MissingText, 11);
    assert LastFoundAt(Vocabulary(rows), d, 0);
    assert IntendedVocabulary(rows) == [];
  }
}
