/** Worked titles run through the extraction rules. Each lemma takes its
    title as a parameter fixed by its requires, rather than writing the
    literal in the ensures: Dafny unfolds a function applied to a literal
    without limit, which makes these proofs far slower. */
module Examples {
  import opened Wrappers
  import opened Text
  import opened Colour
  import opened Year
  import opened Brand
  import opened CarModel

  /** "New Toyota Land Cruiser 2014 White": the listed model wins. */
  lemma LandCruiserModel(t: string)
    requires t == "New Toyota Land Cruiser 2014 White"
    ensures ExtractModel(Some("Toyota"), t) == Some("Land Cruiser")
  {
    assert forall k :: 0 <= k < 12 ==> Lower(t[11 + k]) == Lower("Land Cruiser"[k]);
    assert WordOccursAt(t, "Land Cruiser", 11);
  }

  /** "New Toyota Land Cruiser 2014 White": the last word is the colour. */
  lemma LandCruiserColour(t: string)
    requires t == "New Toyota Land Cruiser 2014 White"
    ensures ExtractColour(t) == Some("White")
  {
    assert ColourAt(t, 29);
    assert t[29..34] == "White";
  }

  /** "New Toyota Land Cruiser 2014 White": 2014 is the first year-shaped word. */
  lemma LandCruiserYear(t: string)
    requires t == "New Toyota Land Cruiser 2014 White"
    ensures ExtractYear(t) == Some("2014")
  {
    assert YearAt(t, 24);
    assert t[24..28] == "2014";
    forall j | 0 <= j < 24 ensures !YearAt(t, j) {
      assert t[j] != '1' && t[j] != '2';
    }
  }

  /** A misspelt trailing colour is corrected. */
  lemma BurgandyIsCorrected(t: string)
    requires t == "Lexus RX 350 2012 Burgandy"
    ensures ExtractColour(t) == Some("Burgundy")
  {
    assert ColourAt(t, 18);
    assert t[18..26] == "Burgandy";
  }

  /** "Land Rover Defender 2019 Black" has nothing for the "New " removal or
      the strip to change. */
  lemma DefenderText(t: string)
    requires t == "Land Rover Defender 2019 Black"
    ensures BrandText(t) == t
  {
    AbsentCharBlocksOccurrence(t, "New ", 0);
    assert RemoveFirst(t, "New ") == t;
    assert Strip(t) == t;
  }

  /** "Land Rover Defender 2019 Black": the first listed multi-word brand is
      found, ahead of the leading word "Land". */
  lemma DefenderBrand(t: string)
    requires t == "Land Rover Defender 2019 Black"
    ensures ExtractBrand(t) == Some("Land Rover")
  {
    DefenderText(t);
    DefenderFound(t);
    assert MultiWordBrands[0] == "Land Rover";
    assert ContainsWord(BrandText(t), MultiWordBrands[0]);
  }

  /** "Land Rover" opens the title as a whole word. */
  lemma DefenderFound(t: string)
    requires t == "Land Rover Defender 2019 Black"
    ensures ContainsWord(t, "Land Rover")
  {
  }

  /** "New Toyota Land Cruiser 2014 White": the leading "New " goes. */
  lemma ToyotaText(u: string)
    requires u == "Toyota Land Cruiser 2014 White"
    ensures BrandText("New " + u) == u
  {
    RemoveFirstOfPrefix("New ", u);
    StripUnchanged(u);
  }

  /** Letters that "Toyota Land Cruiser 2014 White" lacks in either case. */
  lemma ToyotaLettersAbsent(u: string)
    requires u == "Toyota Land Cruiser 2014 White"
    ensures forall j :: 0 <= j < |u| ==> Lower(u[j]) != 'v' && Lower(u[j]) != 'm' && Lower(u[j]) != 'f'
  {
  }

  /** "Toyota Land Cruiser 2014 White" has no "ll", in either case. */
  lemma ToyotaPairAbsent(u: string)
    requires u == "Toyota Land Cruiser 2014 White"
    ensures forall j :: 0 <= j && j + 1 < |u| ==> Lower(u[j]) != 'l' || Lower(u[j + 1]) != 'l'
  {
  }

  /** The first four listed brands each hold a letter or pair the title lacks. */
  lemma ToyotaNoEarlyBrand(u: string)
    requires u == "Toyota Land Cruiser 2014 White"
    ensures !ContainsWord(u, "Land Rover") && !ContainsWord(u, "Mercedes-Benz")
    ensures !ContainsWord(u, "Alfa Romeo") && !ContainsWord(u, "Rolls Royce")
  {
    ToyotaLettersAbsent(u);
    ToyotaPairAbsent(u);
    AbsentCharBlocksWord(u, "Land Rover", 7);
    AbsentCharBlocksWord(u, "Mercedes-Benz", 0);
    AbsentCharBlocksWord(u, "Alfa Romeo", 2);
    AbsentPairBlocksWord(u, "Rolls Royce", 2);
  }

  /** The last three listed brands each hold an 'm' the title lacks. */
  lemma ToyotaNoLateBrand(u: string)
    requires u == "Toyota Land Cruiser 2014 White"
    ensures !ContainsWord(u, "Aston Martin") && !ContainsWord(u, "Mini Cooper")
    ensures !ContainsWord(u, "Maserati Levante")
  {
    ToyotaLettersAbsent(u);
    AbsentCharBlocksWord(u, "Aston Martin", 6);
    AbsentCharBlocksWord(u, "Mini Cooper", 0);
    AbsentCharBlocksWord(u, "Maserati Levante", 0);
  }

  /** No listed multi-word brand occurs in "Toyota Land Cruiser 2014 White". */
  lemma ToyotaNoListedBrand(u: string)
    requires u == "Toyota Land Cruiser 2014 White"
    ensures forall k :: 0 <= k < |MultiWordBrands| ==> !ContainsWord(u, MultiWordBrands[k])
  {
    ToyotaNoEarlyBrand(u);
    ToyotaNoLateBrand(u);
    NoListedBrand(u);
  }

  /** "Toyota Land Cruiser 2014 White" starts with the capitalised word "Toyota". */
  lemma ToyotaLeading(u: string)
    requires u == "Toyota Land Cruiser 2014 White"
    ensures LeadingToken(u) == Some("Toyota")
  {
    LeadingWord(u, 6);
    assert u[..6] == "Toyota";
  }

  /** "New Toyota Land Cruiser 2014 White" has brand "Toyota": no listed
      brand occurs, and the first capitalised word after "New " is taken. */
  lemma ToyotaBrand(u: string)
    requires u == "Toyota Land Cruiser 2014 White"
    ensures ExtractBrand("New " + u) == Some("Toyota")
  {
    var t := "New " + u;
    ToyotaText(u);
    ToyotaNoListedBrand(u);
    assert FirstWordFound(MultiWordBrands, BrandText(t)).None?;
    ToyotaLeading(u);
    assert LeadingToken(BrandText(t)) == Some("Toyota");
    assert Remap("Toyota") == "Toyota";
  }
}
