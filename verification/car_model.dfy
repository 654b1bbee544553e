/** `extract_model` and `model_column`. A listed multi-word model that
    occurs in the Title as a whole phrase, in any case, wins. Otherwise the
    model is the token right after the first occurrence of the brand
    (case-insensitive, word boundary before it) followed by whitespace. The
    capture pattern ends in a lazy `(?:\s+...)*?` with nothing after it, so
    it always takes exactly one token. A 4-digit token is taken for a year
    and gives no model; it does not fall through to the fallback pattern,
    which is tried only when the main one finds nothing and can only differ
    from it on a token that starts with `-`. */
module CarModel {
  import opened Wrappers
  import opened Text
  import opened Listings

  const MultiWordModels: seq<string> := ["Land Cruiser", "Range Rover"]

  /** `str(row['Brand'])`: a missing brand is searched for as "None". */
  function BrandPattern(brand: Option<string>): string {
    brand.GetOr("None")
  }

  /** `[A-Za-z0-9\-]` */
  predicate IsModelChar(c: char) { IsAlnum(c) || c == '-' }

  /** `re.fullmatch(r'\d{4}', m)` */
  predicate IsFourDigits(m: string) {
    |m| == 4 && forall k :: 0 <= k < 4 ==> IsDigit(m[k])
  }

  /** `\b<brand>\s` matches t at i, case-insensitively. */
  predicate BrandThenSpaceAt(t: string, b: string, i: int) {
    MatchesIgnoringCaseAt(t, b, i) && IsBoundary(t, i) && i + |b| < |t| && IsSpace(t[i + |b|])
  }

  /** Where the token starts: after all the whitespace following the brand
      (a greedy `\s+`). */
  function TokenStart(t: string, b: string, i: int): (s: nat)
    requires BrandThenSpaceAt(t, b, i)
    ensures i + |b| < s <= |t|
    ensures forall k :: i + |b| <= k < s ==> IsSpace(t[k])
    ensures s == |t| || !IsSpace(t[s])
  {
    i + |b| + RunFrom(t, i + |b|, IsSpace)
  }

  /** The fallback `\b<brand>\s+([A-Za-z0-9\-]+)` matches t at i. */
  predicate FallbackAt(t: string, b: string, i: int) {
    0 <= i < |t| && BrandThenSpaceAt(t, b, i)
    && TokenStart(t, b, i) < |t| && IsModelChar(t[TokenStart(t, b, i)])
  }

  /** The main pattern `\b<brand>\s+([A-Za-z0-9][A-Za-z0-9\-]*...*?)` matches t at i. */
  predicate PrimaryAt(t: string, b: string, i: int) {
    FallbackAt(t, b, i) && IsAlnum(t[TokenStart(t, b, i)])
  }

  /** Group 1 of either pattern at i: the greedy run of `[A-Za-z0-9\-]`. */
  function Captured(t: string, b: string, i: int): (m: string)
    requires FallbackAt(t, b, i)
    ensures |m| > 0 && forall k :: 0 <= k < |m| ==> IsModelChar(m[k])
    ensures OccursAt(t, m, TokenStart(t, b, i))
    ensures TokenStart(t, b, i) + |m| == |t| || !IsModelChar(t[TokenStart(t, b, i) + |m|])
  {
    var s := TokenStart(t, b, i);
    t[s..s + RunFrom(t, s, IsModelChar)]
  }

  /** Neither listed multi-word model occurs in t. */
  predicate NoListedModel(t: string) {
    !ContainsWord(t, "Land Cruiser") && !ContainsWord(t, "Range Rover")
  }

  /** The leftmost position where a pattern matches, and what it captures:
      a 4-digit capture gives no model. */
  function TokenModel(t: string, b: string, at: Option<nat>): Option<string>
    requires at.Some? ==> FallbackAt(t, b, at.value)
  {
    match at
    case None => None
    case Some(i) => if IsFourDigits(Captured(t, b, i)) then None else Some(Captured(t, b, i))
  }

  /** The part of `extract_model` after the multi-word check: the main
      pattern, or the fallback when the main one matches nowhere. */
  function ModelAfterBrand(b: string, t: string): (r: Option<string>)
    ensures r.Some? ==> !IsFourDigits(r.value)
    ensures r.Some? ==> exists i :: FallbackAt(t, b, i) && r.value == Captured(t, b, i)
  {
    var p := Leftmost(i => PrimaryAt(t, b, i), 0, |t| + 1);
    if p.Some? then TokenModel(t, b, p)
    else TokenModel(t, b, Leftmost(i => FallbackAt(t, b, i), 0, |t| + 1))
  }

  /** The main pattern decides whenever it matches: its leftmost capture is
      the model, and a 4-digit capture gives none rather than falling through. */
  lemma PrimaryDecides(b: string, t: string, i: int)
    requires PrimaryAt(t, b, i) && forall j :: 0 <= j < i ==> !PrimaryAt(t, b, j)
    ensures ModelAfterBrand(b, t) == if IsFourDigits(Captured(t, b, i)) then None else Some(Captured(t, b, i))
  {
    var primary := k => PrimaryAt(t, b, k);
    assert forall j :: primary(j) == PrimaryAt(t, b, j);
    var p := Leftmost(primary, 0, |t| + 1);
    assert p == Some(i);
  }

  /** When the main pattern matches nowhere, the leftmost fallback capture is
      the model; it starts with '-', so it is never a 4-digit year. */
  lemma FallbackDecides(b: string, t: string, i: int)
    requires forall j :: !PrimaryAt(t, b, j)
    requires FallbackAt(t, b, i) && forall j :: 0 <= j < i ==> !FallbackAt(t, b, j)
    ensures ModelAfterBrand(b, t) == Some(Captured(t, b, i))
    ensures Captured(t, b, i)[0] == '-'
  {
    var primary := k => PrimaryAt(t, b, k);
    var fallback := k => FallbackAt(t, b, k);
    assert forall j :: primary(j) == PrimaryAt(t, b, j);
    assert forall j :: fallback(j) == FallbackAt(t, b, j);
    assert Leftmost(primary, 0, |t| + 1).None?;
    assert Leftmost(fallback, 0, |t| + 1) == Some(i);
    assert !PrimaryAt(t, b, i);
    assert Captured(t, b, i)[0] == t[TokenStart(t, b, i)];
  }

  /** With no match of either pattern there is no model. */
  lemma NoMatchNoModel(b: string, t: string)
    requires forall i :: !FallbackAt(t, b, i)
    ensures ModelAfterBrand(b, t).None?
  {
  }

  /** The multi-word check: "Land Cruiser" first, then "Range Rover". */
  lemma ListedModelOrder(t: string)
    ensures ContainsWord(t, "Land Cruiser") ==> FirstWordFound(MultiWordModels, t) == Some("Land Cruiser")
    ensures !ContainsWord(t, "Land Cruiser") && ContainsWord(t, "Range Rover")
            ==> FirstWordFound(MultiWordModels, t) == Some("Range Rover")
    ensures NoListedModel(t) <==> FirstWordFound(MultiWordModels, t).None?
  {
    assert MultiWordModels[0] == "Land Cruiser" && MultiWordModels[1] == "Range Rover";
    assert |MultiWordModels| == 2;
  }

  /** `extract_model` for one row. */
  function ExtractModel(brand: Option<string>, title: string): (r: Option<string>)
    ensures ContainsWord(title, "Land Cruiser") ==> r == Some("Land Cruiser")
    ensures !ContainsWord(title, "Land Cruiser") && ContainsWord(title, "Range Rover") ==> r == Some("Range Rover")
    ensures NoListedModel(title) ==> r == ModelAfterBrand(BrandPattern(brand), title)
    ensures r.Some? ==> !IsFourDigits(r.value)
    ensures r.Some? ==> r.value == "Land Cruiser" || r.value == "Range Rover"
                        || (|r.value| > 0 && forall k :: 0 <= k < |r.value| ==> IsModelChar(r.value[k]))
  {
    ListedModelOrder(title);
    var listed := FirstWordFound(MultiWordModels, title);
    if listed.Some? then listed else ModelAfterBrand(BrandPattern(brand), title)
  }

  /** The two rows patched by position after the rule has run. */
  function Override(i: int): (r: Option<string>)
    ensures r.Some? <==> i == 454 || i == 1133
    ensures i == 454 ==> r == Some("1820")
    ensures i == 1133 ==> r == Some("Countryman")
  {
    if i == 454 then Some("1820")
    else if i == 1133 then Some("Countryman")
    else None
  }

  /** The Model cell of row i after the patches and `fillna`. */
  function ModelCell(row: Listing, i: int): (m: string)
    ensures Override(i).Some? ==> m == Override(i).value
    ensures Override(i).None? && ExtractModel(row.brand, row.title).Some?
            ==> m == ExtractModel(row.brand, row.title).value
    ensures m == NotSpecified <==> Override(i).None? && ExtractModel(row.brand, row.title).None?
  {
    var e := ExtractModel(row.brand, row.title);
    assert !IsModelChar(NotSpecified[3]);
    assert e.Some? ==> e.value != NotSpecified;
    assert "1820" != NotSpecified && "Countryman" != NotSpecified;
    match Override(i)
    case Some(m) => m
    case None => e.GetOr(NotSpecified)
  }

  /** `model_column`: the rule on every row, the two positional patches, and
      "Not Specified" for what is still missing; no other column changes. */
  function ModelColumn(rows: seq<Listing>): (r: seq<Listing>)
    ensures |r| == |rows|
    ensures forall i :: 0 <= i < |rows| ==> r[i] == rows[i].(model := r[i].model)
    ensures forall i :: 0 <= i < |rows| ==> r[i].model.Some?
    ensures forall i :: 0 <= i < |rows| && i != 454 && i != 1133 && ExtractModel(rows[i].brand, rows[i].title).Some?
              ==> r[i].model == ExtractModel(rows[i].brand, rows[i].title)
    ensures 454 < |rows| ==> r[454].model == Some("1820")
    ensures 1133 < |rows| ==> r[1133].model == Some("Countryman")
  {
    seq(|rows|, i requires 0 <= i < |rows| => rows[i].(model := Some(ModelCell(rows[i], i))))
  }

  /** A row's Model is "Not Specified" exactly when it is not patched and the
      rule found no model: no model the rule finds is the placeholder. */
  lemma NotSpecifiedModelExactly(rows: seq<Listing>, i: int)
    requires 0 <= i < |rows|
    ensures ModelColumn(rows)[i].model == Some(NotSpecified)
            <==> i != 454 && i != 1133 && ExtractModel(rows[i].brand, rows[i].title).None?
  {
    var m := ExtractModel(rows[i].brand, rows[i].title);
    assert !IsModelChar(NotSpecified[3]);
    assert m.Some? ==> m.value != NotSpecified;
    assert "1820" != NotSpecified && "Countryman" != NotSpecified;
  }

  /** `model_column` depends only on Title, Brand and position and
      overwrites the whole Model column, so running it again changes nothing. */
  lemma ModelColumnIdempotent(rows: seq<Listing>)
    ensures ModelColumn(ModelColumn(rows)) == ModelColumn(rows)
  {
  }
}
