# Jiji car listings cleaner — a Dafny model

`jiji_car_challenge/jiji_cleaned_car.py` cleans a table of used-car listings
scraped from Jiji. Every row has a Title (e.g. "New Toyota Land Cruiser 2014
White"), a Description and a Price text (e.g. "₦ 12,500,000"). The cleaner
rewrites the Price column as integers. It then derives four new columns from
the Title:

- Colour: the last word of the title, with a fallback search in the
  Description.
- Year: the first stand-alone 19xx or 20xx.
- Brand: a listed multi-word brand, or else the leading capitalised token.
- Model: a listed multi-word model, or else the token after the brand.

This project models those steps as pure functions over a sequence of
`Listing` records and proves what each step promises.

Modules, one file each:

- `Wrappers` (`wrappers.dfy`): `Option` and `Result`.
- `Text` (`text.dfy`): the ASCII character classes of Python's `re`, the word
  boundary `\b`, case-insensitive matching, the leftmost-match scan behind
  `re.search` and `in`, `str.strip` and `str.replace(p, '', 1)`.
- `Listings` (`listings.dfy`): one table row and the "Not Specified"
  placeholder.
- `Price`, `Colour`, `Year`, `Brand`, `CarModel` (`price.dfy`, `colour.dfy`,
  `year.dfy`, `brand.dfy`, `car_model.dfy`): the cleaning functions.
- `Examples` (`examples.dfy`): concrete titles worked through the model.

Regular expressions are modelled as predicates saying "the pattern matches
here". Each search is the leftmost position where that predicate holds.
Greedy runs (`+`, `*`) are maximal runs, with their maximality proved. A table
column is a sequence of rows. A column operation returns the same rows with
one field replaced. Missing cells (`NaN`/`None`) are `Option.None`.

Three behaviours of the code that a reader of its docstrings might not
expect:

- A price text that still holds a `.` after the deletion step (line 37) is
  rejected by `int()`, not truncated. The model makes it an error.
- The fallback vocabulary (line 62) also holds the missing value, which
  `str()` renders as "nan", although the docstring (lines 46-48) and the
  comment at line 68 speak only of extracted colours. See the finding below.
- The inner loop (lines 65-70) has no `break`, so when several vocabulary
  entries occur in a Description the last one found wins.

## Model

| member | source | states |
|---|---|---|
| Text.FirstWordFound | jiji_car_challenge/jiji_cleaned_car.py:112-115 | Returns the first list entry that occurs in the text as a whole word (`\b…\b`, ignoring case), in list order and with the list's own spelling. Returns None exactly when no entry occurs. |
| Text.ContainsWord | jiji_car_challenge/jiji_cleaned_car.py:113-114 | True exactly when some position has a case-insensitive occurrence of the word with a word boundary on both sides. |
| Text.IndexOf | jiji_car_challenge/jiji_cleaned_car.py:67 | Python's `in`: the leftmost position where the pattern occurs; None exactly when it occurs nowhere. |
| Text.Strip | jiji_car_challenge/jiji_cleaned_car.py:100 | The result is a contiguous slice of the input. Only whitespace was removed on either side, and neither end of the result is whitespace. |
| Text.RemoveFirst | jiji_car_challenge/jiji_cleaned_car.py:100 | The input unchanged when the pattern never occurs. Otherwise the input with exactly its leftmost occurrence cut out. |
| Text.RemoveFirstOfPrefix | jiji_car_challenge/jiji_cleaned_car.py:100 | For any texts p and u, removing the first occurrence of p from p + u leaves exactly u. |
| Text.StripUnchanged | jiji_car_challenge/jiji_cleaned_car.py:100 | Stripping a text whose ends are not whitespace leaves it unchanged. |
| Price.KeepPriceChars | jiji_car_challenge/jiji_cleaned_car.py:37 | Every kept character is a digit or `.`. Each such character is kept exactly as often as it appears in the input; all others are dropped. |
| Price.KeepPriceCharsDistributes | jiji_car_challenge/jiji_cleaned_car.py:37 | Cleaning a concatenation is concatenating the cleaned parts, so kept characters keep their order. |
| Price.KeepPriceCharsIdempotent | jiji_car_challenge/jiji_cleaned_car.py:37 | Cleaning an already cleaned text changes nothing. |
| Price.ParsePrice | jiji_car_challenge/jiji_cleaned_car.py:37 | `int()` followed by the int64 cast succeeds exactly on a non-empty all-digit text whose decimal value fits in int64, returns that decimal value, and otherwise fails with NotAnInteger exactly when the text is empty or holds a non-digit. |
| Price.DecimalValueOfRender | jiji_car_challenge/jiji_cleaned_car.py:37 | The decimal rendering of n reads back as n and has no leading zero. |
| Price.ParsePriceOfRender | jiji_car_challenge/jiji_cleaned_car.py:37 | Round trip: parsing the rendering of any int64 value gives that value back. |
| Price.RenderOfDecimalValue | jiji_car_challenge/jiji_cleaned_car.py:37 | Round trip the other way: a digit text without leading zero is the rendering of its own value. |
| Price.PriceTextOutcome | jiji_car_challenge/jiji_cleaned_car.py:37 | A raw Price text converts exactly when it has a digit, has no `.`, and its digits' value fits in int64. |
| Price.CleanPriceCell | jiji_car_challenge/jiji_cleaned_car.py:37 | An integer cell is left as is. A text cell converts exactly when its cleaned text parses, and then to the value of its digits. |
| Price.CleanPriceColumn | jiji_car_challenge/jiji_cleaned_car.py:27-38 | Succeeds exactly when every row's cell converts. On success only each row's price changes. On failure the error is the first failing row's. |
| Price.CleanPriceColumnIdempotent | jiji_car_challenge/jiji_cleaned_car.py:37 | Cleaning a cleaned column gives the same column again. |
| Colour.TitleColour | jiji_car_challenge/jiji_cleaned_car.py:57 | `(\b[A-Za-z]+)$`: the whole run of letters ending at the end of the title, or before a final newline, that starts at a word boundary. None exactly when there is no such run. |
| Colour.ExtractColour | jiji_car_challenge/jiji_cleaned_car.py:57-59 | A colour exists exactly when the title yields one. "white" becomes "White" and "Burgandy" becomes "Burgundy". Other words are unchanged, and neither misspelling is ever returned. |
| Colour.CanonicalIdempotent | jiji_car_challenge/jiji_cleaned_car.py:58-59 | Applying the spelling fixes twice is the same as once. |
| Colour.Distinct | jiji_car_challenge/jiji_cleaned_car.py:62 | `unique()`: the same members as the input, no duplicates, in order of first appearance. |
| Colour.Vocabulary | jiji_car_challenge/jiji_cleaned_car.py:62 | Holds exactly the colours (including the missing value) that some row's title yields, each once, in order of first appearance among the rows. |
| Colour.ScanDescription | jiji_car_challenge/jiji_cleaned_car.py:65-70 | The inner loop: the cell stays as it is when no entry's text occurs in the description. Otherwise the last entry that occurs wins. |
| Colour.FillColours | jiji_car_challenge/jiji_cleaned_car.py:62-72 | Only the colour field changes and every row ends with a colour. A title colour is kept. A row without one gets the last vocabulary entry found in its description, or "Not Specified" when none is found. |
| Colour.ColourColumn | jiji_car_challenge/jiji_cleaned_car.py:57-72 | Same row count. Only the colour changes. Every colour is present, and a row whose title yields a colour keeps it. |
| Colour.LastFoundExists | jiji_car_challenge/jiji_cleaned_car.py:65-70 | For any description, either no vocabulary entry occurs in it or there is a last one that does. |
| Colour.RenderedIsNotPlaceholder | jiji_car_challenge/jiji_cleaned_car.py:62-68 | A vocabulary entry never renders as "Not Specified". Every entry is the missing value or some row's title colour. |
| Colour.ColourFallback | jiji_car_challenge/jiji_cleaned_car.py:62-72 | A row without a title colour gets "Not Specified" exactly when no entry occurs in its description. Otherwise it gets the last entry that occurs. That entry is a substring of the description and is either "nan" or another row's title colour. |
| Colour.ColourColumnIdempotent | jiji_car_challenge/jiji_cleaned_car.py:57-72 | Running the colour step on its own output changes nothing. |
| Colour.MissingValueBecomesColour | jiji_car_challenge/jiji_cleaned_car.py:62-68 | As written: a one-row table titled "Toyota Camry 2015" with description "Full maintenance history" gets the colour "nan". The intended version gives "Not Specified". |
| Colour.ColourColumnIntended | jiji_car_challenge/jiji_cleaned_car.py:62-72 | The corrected colour step (vocabulary without the missing value) has the same row shape and title-colour guarantees as the step as written. |
| Colour.IntendedColourIsRecognised | jiji_car_challenge/jiji_cleaned_car.py:62-72 | In the corrected step a row's colour is either "Not Specified" or a colour recognised in some row's title (so "nan" only when some title itself ends in the word "nan"). |
| Year.ExtractYear | jiji_car_challenge/jiji_cleaned_car.py:89 | `\b(19\d{2}\|20\d{2})\b`: None exactly when no stand-alone 19xx/20xx occurs. Otherwise the leftmost one: four characters starting "19" or "20", with word boundaries on both sides. |
| Year.NoYearInsideLongerNumber | jiji_car_challenge/jiji_cleaned_car.py:89 | No 4-character window of a run of five or more digits (e.g. "20145") is a year. |
| Year.YearColumn | jiji_car_challenge/jiji_cleaned_car.py:89 | Same row count, only the year changes, and each row's year is the one its title yields. |
| Brand.LeadingToken | jiji_car_challenge/jiji_cleaned_car.py:118-119 | `^([A-Z][a-zA-Z]+(?:-[A-Z][a-zA-Z]+)?)`: None exactly when no prefix of the text is a brand token. Otherwise the longest such prefix. |
| Brand.LeadingWord | jiji_car_challenge/jiji_cleaned_car.py:118-119 | A title that opens with a capitalised word, which is either the whole title or followed by a character that is neither a letter nor '-', leads with exactly that word. |
| Brand.LeadingMatchIsLongest | jiji_car_challenge/jiji_cleaned_car.py:118-119 | The greedy match the regex engine makes is the longest prefix with the brand-word shape, and is missing exactly when no prefix has that shape. |
| Brand.BrandText | jiji_car_challenge/jiji_cleaned_car.py:100 | The result is the title with its first "New " cut out, trimmed of whitespace on both sides, and neither of its ends is whitespace. |
| Brand.Remap | jiji_car_challenge/jiji_cleaned_car.py:106-109 | "Mini" becomes "Mini Cooper" and "Car" becomes "Innoson". Every other word is unchanged, and the result is never "Mini" or "Car". |
| Brand.ExtractBrand | jiji_car_challenge/jiji_cleaned_car.py:93-124 | After dropping the first "New " and stripping, the first listed multi-word brand found in the title is the brand. The result is never "Mini" or "Car". |
| Brand.ExtractBrandFallback | jiji_car_challenge/jiji_cleaned_car.py:117-124 | With no listed brand in the text, the brand is the remapped leading token, or None when the text starts with no capitalised token. |
| Brand.BrandColumn | jiji_car_challenge/jiji_cleaned_car.py:136 | Same row count, only the brand changes, and each row's brand is the one its title yields. |
| CarModel.ModelAfterBrand | jiji_car_challenge/jiji_cleaned_car.py:165-183 | A model found after the brand is never four digits. It is the token captured at some position where the brand, a word boundary before it, and whitespace after it occur. |
| CarModel.PrimaryDecides | jiji_car_challenge/jiji_cleaned_car.py:165-173 | At the leftmost match of the main pattern, its one-token capture is the model. A 4-digit capture gives no model and does not fall through to the fallback. |
| CarModel.FallbackDecides | jiji_car_challenge/jiji_cleaned_car.py:174-182 | When the main pattern matches nowhere, the leftmost fallback capture is the model. It starts with '-'. |
| CarModel.NoMatchNoModel | jiji_car_challenge/jiji_cleaned_car.py:183 | When neither pattern matches, there is no model. |
| CarModel.ListedModelOrder | jiji_car_challenge/jiji_cleaned_car.py:155-163 | "Land Cruiser" is checked before "Range Rover". The listed search finds nothing exactly when neither occurs as a whole phrase. |
| CarModel.ExtractModel | jiji_car_challenge/jiji_cleaned_car.py:143-183 | "Land Cruiser" wins, then "Range Rover". Otherwise the token after the brand (a missing brand is searched for as "None"). The result is never four digits, and it is a listed model or a non-empty run of letters, digits and '-'. |
| CarModel.Override | jiji_car_challenge/jiji_cleaned_car.py:197-198 | Exactly rows 454 and 1133 are patched, with "1820" and "Countryman". |
| CarModel.ModelCell | jiji_car_challenge/jiji_cleaned_car.py:196-199 | A patched row gets its patch, an unpatched row gets its extracted model, and the cell is "Not Specified" exactly when the row is unpatched and extraction found nothing. |
| CarModel.ModelColumn | jiji_car_challenge/jiji_cleaned_car.py:196-199 | Same row count and only the model changes. Every row ends with a model. Row 454 gets "1820" and row 1133 gets "Countryman". Every other row with an extracted model gets that model. |
| CarModel.NotSpecifiedModelExactly | jiji_car_challenge/jiji_cleaned_car.py:196-199 | A row's model is "Not Specified" exactly when it is not row 454 or 1133 and extraction found no model. |
| CarModel.ModelColumnIdempotent | jiji_car_challenge/jiji_cleaned_car.py:196-199 | Running the model step on its own output changes nothing. |
| Examples.LandCruiserModel | jiji_car_challenge/jiji_cleaned_car.py:155-163 | "New Toyota Land Cruiser 2014 White" has model "Land Cruiser". |
| Examples.LandCruiserColour | jiji_car_challenge/jiji_cleaned_car.py:57 | The same title has colour "White". |
| Examples.LandCruiserYear | jiji_car_challenge/jiji_cleaned_car.py:89 | The same title has year "2014". |
| Examples.BurgandyIsCorrected | jiji_car_challenge/jiji_cleaned_car.py:57-59 | "Lexus RX 350 2012 Burgandy" has colour "Burgundy". |
| Examples.ToyotaBrand | jiji_car_challenge/jiji_cleaned_car.py:100-124 | "New Toyota Land Cruiser 2014 White" has brand "Toyota": "New " is dropped, no listed brand occurs, and the leading word is taken. |
| Examples.DefenderBrand | jiji_car_challenge/jiji_cleaned_car.py:100-115 | "Land Rover Defender 2019 Black" has brand "Land Rover", found by the multi-word list ahead of the leading word "Land". |

## Left out

- `read_data` (lines 20-23) reads a CSV file. That is I/O: the model starts from a sequence of rows.
- `railway/railway.py` is not part of this model. It is a separate analysis, not part of cleaning the car table.
- Unicode: `\d`, `\s`, `\w`, `[A-Za-z]` under `IGNORECASE`, `str.strip` and `int()` all handle non-ASCII characters (Unicode digits and spaces, case folding of letters such as 'ſ' or the Kelvin sign). The model treats only ASCII. Its whitespace is space, `\t`..`\r` and `\x1c`..`\x1f`.
- A missing Description makes `str(j) in NaN` raise `TypeError`. The model makes Description a required string, so that crash is not modelled.
- Price cells that are neither text nor integers (floats, `NaN`) are not modelled. Integer cells pass through unchanged.
- Price.CleanPriceCell: an integer cell passes through without the int64 range check. A cell read as a number is already an int64.
- Price.CleanPriceColumn: pandas' own dtype handling is not modelled. The model takes the per-cell `int()` and int64 behaviour and fails the whole column at its first failing row.
- CarModel.ModelColumn: rows 454 and 1133 are sequence positions, not pandas index labels. On a table with fewer rows, `.loc` would append a new row. The model leaves the table length unchanged and skips the override.
- CarModel.ExtractModel: a missing Brand cell that pandas holds as `NaN` would render as "nan". The model takes the value `extract_brand` returns (`None`), which renders as "None".
- CarModel.ModelColumn: `extract_model` reads `row['Brand']` (line 156), so `model_column` raises `KeyError` unless `brand_column` (line 136) has already added the Brand column. The model's rows always carry a brand field, so it cannot tell a column never computed from a brand computed as missing, and searches for "None" in both cases.

## Findings

| source | as written | input that shows it | evidently intended | confidence | as-written member | corrected member |
|---|---|---|---|---|---|---|
| jiji_car_challenge/jiji_cleaned_car.py:62-68 | The colour vocabulary is `unique()` of the Colour column, and that includes the missing value. `str()` renders it as "nan", and the substring test then finds "nan" inside ordinary words. | One row titled "Toyota Camry 2015" (no final colour word) with Description "Full maintenance history" gets Colour "nan". | Only colours recognised in titles are searched for, so that row gets "Not Specified". | medium; not executed | Colour.MissingValueBecomesColour | Colour.ColourColumnIntended (property: Colour.IntendedColourIsRecognised) |
