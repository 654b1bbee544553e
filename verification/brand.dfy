/** `extract_brand` and `brand_column`. The first "New " anywhere in the
    Title is deleted and the rest stripped. A brand from the multi-word list
    that occurs there as a whole phrase, in any case, wins, in the list's
    order and spelling. Otherwise the brand is the capitalised word (or two
    hyphen-joined capitalised words) the text starts with, after the remap
    Mini -> Mini Cooper, Car -> Innoson; with no such word it is missing. */
module Brand {
  import opened Wrappers
  import opened Text
  import opened Listings

  const MultiWordBrands: seq<string> := [
    "Land Rover", "Mercedes-Benz", "Alfa Romeo", "Rolls Royce",
    "Aston Martin", "Mini Cooper", "Maserati Levante"
  ]

  /** Every listed brand is longer than either token the remap table replaces. */
  lemma ListedBrandsAreLong()
    ensures forall k :: 0 <= k < |MultiWordBrands| ==> |MultiWordBrands[k]| >= 10
  {
  }

  /** The listed brands, one by one: a text holding none of them as a word
      holds no entry of the list. */
  lemma NoListedBrand(t: string)
    requires !ContainsWord(t, "Land Rover") && !ContainsWord(t, "Mercedes-Benz")
    requires !ContainsWord(t, "Alfa Romeo") && !ContainsWord(t, "Rolls Royce")
    requires !ContainsWord(t, "Aston Martin") && !ContainsWord(t, "Mini Cooper")
    requires !ContainsWord(t, "Maserati Levante")
    ensures forall k :: 0 <= k < |MultiWordBrands| ==> !ContainsWord(t, MultiWordBrands[k])
  {
  }

  /** `title.replace('New ', '', 1).strip()`: the title with its first
      "New " cut out, then trimmed of whitespace on both sides. */
  function BrandText(title: string): (r: string)
    ensures exists a :: TrimmedAt(RemoveFirst(title, "New "), r, a)
    ensures |r| > 0 ==> !IsSpace(r[0]) && !IsSpace(r[|r| - 1])
  {
    Strip(RemoveFirst(title, "New "))
  }

  /** `[A-Z][a-zA-Z]+` matches the whole of w. */
  predicate CapWord(w: string) {
    |w| >= 2 && IsUpper(w[0]) && forall k :: 1 <= k < |w| ==> IsLetter(w[k])
  }

  /** w is two capitalised words joined by the hyphen at h. */
  predicate HyphenSplit(w: string, h: int) {
    0 < h < |w| && w[h] == '-' && CapWord(w[..h]) && CapWord(w[h + 1..])
  }

  /** `[A-Z][a-zA-Z]+(?:-[A-Z][a-zA-Z]+)?` matches the whole of w. */
  predicate BrandToken(w: string) {
    CapWord(w) || exists h :: 0 < h < |w| && HyphenSplit(w, h)
  }

  /** How the regex engine finds group 1 of
      `re.match(r'^([A-Z][a-zA-Z]+(?:-[A-Z][a-zA-Z]+)?)', t)`: both `+` and
      the optional part are greedy. */
  function LeadingMatch(t: string): Option<string> {
    if |t| >= 2 && IsUpper(t[0]) && IsLetter(t[1]) then
      var n1 := 1 + RunFrom(t, 1, IsLetter);
      if n1 + 2 < |t| && t[n1] == '-' && IsUpper(t[n1 + 1]) && IsLetter(t[n1 + 2]) then
        Some(t[..n1 + 2 + RunFrom(t, n1 + 2, IsLetter)])
      else
        Some(t[..n1])
    else
      None
  }

  /** A capitalised word at the start of t ends within t's first letter run. */
  lemma CapWordPrefix(t: string, n: int)
    requires 0 <= n <= |t|
    ensures CapWord(t[..n]) ==> |t| >= 2 && IsUpper(t[0]) && IsLetter(t[1])
                                && n <= 1 + RunFrom(t, 1, IsLetter)
  {
  }

  /** Two hyphen-joined words at the start of t are split at the end of t's
      first letter run, and the second ends within the letter run after it. */
  lemma HyphenPrefix(t: string, n: int, h: int)
    requires 0 <= n <= |t|
    ensures HyphenSplit(t[..n], h) ==>
              && |t| >= 2 && IsUpper(t[0]) && IsLetter(t[1])
              && var n1 := 1 + RunFrom(t, 1, IsLetter);
              && h == n1 && n1 + 2 < |t| && t[n1] == '-' && IsUpper(t[n1 + 1]) && IsLetter(t[n1 + 2])
              && n <= n1 + 2 + RunFrom(t, n1 + 2, IsLetter)
  {
    if HyphenSplit(t[..n], h) {
      assert t[..n][..h] == t[..h];
      CapWordPrefix(t, h);
      assert forall k :: 0 <= k < n ==> t[..n][k] == t[k];
      var n1 := 1 + RunFrom(t, 1, IsLetter);
      var second := t[..n][h + 1..];
      assert forall k :: 0 <= k < |second| ==> second[k] == t[h + 1 + k];
      assert IsUpper(t[h + 1]) && IsLetter(t[h + 2]);
    }
  }

  /** The greedy match is the longest prefix of t that has the brand-word
      shape; there is none exactly when the match fails. */
  lemma {:induction false} LeadingMatchIsLongest(t: string)
    ensures LeadingMatch(t).None? <==> forall n :: 0 <= n <= |t| ==> !BrandToken(t[..n])
    ensures LeadingMatch(t).Some? ==>
              var w := LeadingMatch(t).value;
              |w| <= |t| && w == t[..|w|] && BrandToken(w)
              && forall n :: |w| < n <= |t| ==> !BrandToken(t[..n])
  {
    forall n, h | 0 <= n <= |t|
      ensures CapWord(t[..n]) ==> |t| >= 2 && IsUpper(t[0]) && IsLetter(t[1])
                                  && n <= 1 + RunFrom(t, 1, IsLetter)
      ensures HyphenSplit(t[..n], h) ==>
                && |t| >= 2 && IsUpper(t[0]) && IsLetter(t[1])
                && var n1 := 1 + RunFrom(t, 1, IsLetter);
                && h == n1 && n1 + 2 < |t| && t[n1] == '-' && IsUpper(t[n1 + 1]) && IsLetter(t[n1 + 2])
                && n <= n1 + 2 + RunFrom(t, n1 + 2, IsLetter)
    {
      CapWordPrefix(t, n);
      HyphenPrefix(t, n, h);
    }
    if |t| >= 2 && IsUpper(t[0]) && IsLetter(t[1]) {
      var n1 := 1 + RunFrom(t, 1, IsLetter);
      assert CapWord(t[..n1]);
      if n1 + 2 < |t| && t[n1] == '-' && IsUpper(t[n1 + 1]) && IsLetter(t[n1 + 2]) {
        var w := LeadingMatch(t).value;
        assert w[..n1] == t[..n1];
        assert CapWord(w[n1 + 1..]);
        assert HyphenSplit(w, n1);
      }
    }
  }

  /** `re.match(r'^([A-Z][a-zA-Z]+(?:-[A-Z][a-zA-Z]+)?)', t)`, group 1: the
      longest prefix of t with the brand-word shape, and missing exactly when
      no prefix has it. */
  function LeadingToken(t: string): (r: Option<string>)
    ensures r.None? <==> forall n :: 0 <= n <= |t| ==> !BrandToken(t[..n])
    ensures r.Some? ==>
              |r.value| <= |t| && r.value == t[..|r.value|] && BrandToken(r.value)
              && forall n :: |r.value| < n <= |t| ==> !BrandToken(t[..n])
  {
    LeadingMatchIsLongest(t);
    LeadingMatch(t)
  }

  /** A title starting with a capitalised word of n letters that either is
      the whole title or is followed by a character that is neither a letter
      nor '-' leads with that word. */
  lemma LeadingWord(t: string, n: int)
    requires 2 <= n <= |t| && IsUpper(t[0]) && forall k :: 1 <= k < n ==> IsLetter(t[k])
    requires n < |t| ==> !IsLetter(t[n]) && t[n] != '-'
    ensures LeadingToken(t) == Some(t[..n])
  {
  }

  /** The remap table for tokens that are not the real brand. */
  function Remap(w: string): (r: string)
    ensures r != "Mini" && r != "Car"
    ensures w != "Mini" && w != "Car" ==> r == w
  {
    if w == "Mini" then "Mini Cooper"
    else if w == "Car" then "Innoson"
    else w
  }

  /** `extract_brand` */
  function ExtractBrand(title: string): (r: Option<string>)
    ensures r != Some("Mini") && r != Some("Car")
    ensures forall k :: 0 <= k < |MultiWordBrands| && ContainsWord(BrandText(title), MultiWordBrands[k])
              && (forall j :: 0 <= j < k ==> !ContainsWord(BrandText(title), MultiWordBrands[j]))
              ==> r == Some(MultiWordBrands[k])
  {
    var t := BrandText(title);
    var listed := FirstWordFound(MultiWordBrands, t);
    if listed.Some? then
      ListedBrandsAreLong();
      listed
    else
      var w := LeadingToken(t);
      if w.Some? then Some(Remap(w.value)) else None
  }

  /** Without a multi-word brand, the brand is the remapped longest leading
      brand-shaped word of the cleaned title, and missing when there is none. */
  lemma ExtractBrandFallback(title: string)
    requires forall k :: 0 <= k < |MultiWordBrands| ==> !ContainsWord(BrandText(title), MultiWordBrands[k])
    ensures var t := BrandText(title);
            ExtractBrand(title).None? <==> forall n :: 0 <= n <= |t| ==> !BrandToken(t[..n])
    ensures var t := BrandText(title);
            ExtractBrand(title).Some? ==>
              exists n :: 0 < n <= |t| && BrandToken(t[..n]) && (forall m :: n < m <= |t| ==> !BrandToken(t[..m]))
                          && ExtractBrand(title).value == Remap(t[..n])
  {
    var t := BrandText(title);
    if LeadingToken(t).Some? {
      var w := LeadingToken(t).value;
      assert BrandToken(t[..|w|]);
    }
  }

  /** `brand_column`: each row's Brand comes from its own Title alone; no
      other column changes. */
  function BrandColumn(rows: seq<Listing>): (r: seq<Listing>)
    ensures |r| == |rows|
    ensures forall i :: 0 <= i < |rows| ==> r[i] == rows[i].(brand := r[i].brand)
    ensures forall i :: 0 <= i < |rows| ==> r[i].brand == ExtractBrand(rows[i].title)
  {
    seq(|rows|, i requires 0 <= i < |rows| => rows[i].(brand := ExtractBrand(rows[i].title)))
  }
}
