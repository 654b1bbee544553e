/** `cleaned_price_column`: every character of a Price cell that is not a
    digit or `.` is deleted, then the column is converted to 64-bit integers.
    Python's `int()` accepts only an optional sign, digits and underscores, so
    the conversion fails on an empty remainder and on any remainder that still
    holds a `.`; numpy's int64 cast fails on values of 2^63 and above. One
    failing cell fails the whole column. */
module Price {
  import opened Wrappers
  import opened Text
  import opened Listings

  datatype PriceError =
    | NotAnInteger(text: string)   // ValueError from int()
    | OutOfRange(text: string)     // OverflowError from the int64 cast

  const Int64Max: int := 0x7FFF_FFFF_FFFF_FFFF

  predicate IsPriceChar(c: char) { IsDigit(c) || c == '.' }

  predicate AllDigits(t: string) { forall k :: 0 <= k < |t| ==> IsDigit(t[k]) }

  /** `re.sub(r'[^\d.]', '', s)` */
  function KeepPriceChars(s: string): (r: string)
    ensures forall k :: 0 <= k < |r| ==> IsPriceChar(r[k])
    ensures forall c :: multiset(r)[c] == if IsPriceChar(c) then multiset(s)[c] else 0
  {
    if s == [] then []
    else
      assert s == [s[0]] + s[1..];
      (if IsPriceChar(s[0]) then [s[0]] else []) + KeepPriceChars(s[1..])
  }

  /** Deleting commutes with concatenation: what is kept from a + b is what is
      kept from a followed by what is kept from b, so the kept characters stay
      in their original order. */
  lemma {:induction false} KeepPriceCharsDistributes(a: string, b: string)
    ensures KeepPriceChars(a + b) == KeepPriceChars(a) + KeepPriceChars(b)
  {
    if a == [] {
      assert a + b == b;
    } else {
      assert (a + b)[1..] == a[1..] + b;
      KeepPriceCharsDistributes(a[1..], b);
    }
  }

  /** Cleaning a cleaned text changes nothing. */
  lemma {:induction false} KeepPriceCharsIdempotent(s: string)
    ensures KeepPriceChars(KeepPriceChars(s)) == KeepPriceChars(s)
  {
    if s != [] {
      var head := if IsPriceChar(s[0]) then [s[0]] else [];
      KeepPriceCharsDistributes(head, KeepPriceChars(s[1..]));
      KeepPriceCharsIdempotent(s[1..]);
      if IsPriceChar(s[0]) {
        assert head[1..] == [];
        assert KeepPriceChars(head) == head;
      }
    }
  }

  function DigitValue(c: char): nat
    requires IsDigit(c)
  {
    c as int - '0' as int
  }

  /** The decimal value of a digit string, most significant digit first. */
  function DecimalValue(t: string): nat
    requires AllDigits(t)
  {
    if |t| == 0 then 0 else 10 * DecimalValue(t[..|t| - 1]) + DigitValue(t[|t| - 1])
  }

  /** `int(t)` followed by the int64 cast, on the cleaned remainder t. */
  function ParsePrice(t: string): (r: Result<int, PriceError>)
    ensures r.Ok? <==> |t| > 0 && AllDigits(t) && DecimalValue(t) <= Int64Max
    ensures r.Ok? ==> r.value == DecimalValue(t) && 0 <= r.value <= Int64Max
    ensures r.Err? ==> (r.error.NotAnInteger? <==> |t| == 0 || !AllDigits(t))
  {
    if |t| == 0 || !AllDigits(t) then Err(NotAnInteger(t))
    else if DecimalValue(t) > Int64Max then Err(OutOfRange(t))
    else Ok(DecimalValue(t))
  }

  /** `str(n)` for a non-negative integer. */
  function Render(n: nat): (r: string)
    ensures |r| > 0 && AllDigits(r)
    decreases n
  {
    if n < 10 then [('0' as int + n) as char]
    else Render(n / 10) + [('0' as int + n % 10) as char]
  }

  lemma {:induction false} DecimalValueOfRender(n: nat)
    ensures DecimalValue(Render(n)) == n
    ensures Render(n)[0] != '0' || n == 0
    decreases n
  {
    if n >= 10 {
      var r := Render(n);
      DecimalValueOfRender(n / 10);
      assert r[..|r| - 1] == Render(n / 10);
    }
  }

  /** Converting the text of any price that fits in int64 gives back that price. */
  lemma ParsePriceOfRender(n: nat)
    requires n <= Int64Max
    ensures ParsePrice(Render(n)) == Ok(n)
  {
    DecimalValueOfRender(n);
  }

  lemma {:induction false} LeadingDigitBoundsValue(t: string)
    requires |t| > 0 && AllDigits(t) && t[0] != '0'
    ensures DecimalValue(t) > 0
  {
    if |t| > 1 {
      LeadingDigitBoundsValue(t[..|t| - 1]);
    }
  }

  /** A digit string without a leading zero is the rendering of its value:
      conversion loses nothing but leading zeros. */
  lemma {:induction false} RenderOfDecimalValue(t: string)
    requires |t| > 0 && AllDigits(t) && (t[0] != '0' || |t| == 1)
    ensures Render(DecimalValue(t)) == t
  {
    if |t| > 1 {
      var init := t[..|t| - 1];
      LeadingDigitBoundsValue(init);
      RenderOfDecimalValue(init);
      var n := DecimalValue(t);
      assert n / 10 == DecimalValue(init);
      assert t == init + [t[|t| - 1]];
    }
  }

  /** The outcome of cleaning one text cell, stated on the raw text: it fails
      exactly when the text has no digit, still has a `.`, or is too large. */
  lemma PriceTextOutcome(s: string)
    ensures AllDigits(KeepPriceChars(s)) <==> forall k :: 0 <= k < |s| ==> s[k] != '.'
    ensures |KeepPriceChars(s)| > 0 <==> exists k :: 0 <= k < |s| && IsPriceChar(s[k])
    ensures ParsePrice(KeepPriceChars(s)).Ok? <==>
              (exists k :: 0 <= k < |s| && IsDigit(s[k]))
              && (forall k :: 0 <= k < |s| ==> s[k] != '.')
              && DecimalValue(KeepPriceChars(s)) <= Int64Max
  {
    var r := KeepPriceChars(s);
    assert AllDigits(r) <==> '.' !in multiset(r) by {
      if !AllDigits(r) {
        var k :| 0 <= k < |r| && !IsDigit(r[k]);
        assert r[k] == '.';
        assert r[k] in multiset(r);
      }
      if '.' in multiset(r) {
        assert '.' in r;
      }
    }
    assert '.' in multiset(r) <==> '.' in multiset(s);
    assert ('.' in multiset(s)) <==> exists k :: 0 <= k < |s| && s[k] == '.' by {
      assert '.' in multiset(s) <==> '.' in s;
    }
    assert |r| > 0 <==> exists k :: 0 <= k < |s| && IsPriceChar(s[k]) by {
      if |r| > 0 {
        assert r[0] in multiset(r);
        assert r[0] in s;
      }
      if k :| 0 <= k < |s| && IsPriceChar(s[k]) {
        assert s[k] in multiset(s);
        assert multiset(r)[s[k]] > 0;
      }
    }
  }

  /** One Price cell: text is cleaned and converted, an integer cell stays. */
  function CleanPriceCell(c: PriceCell): (r: Result<PriceCell, PriceError>)
    ensures r.Ok? ==> r.value.Amount?
    ensures c.Amount? ==> r == Ok(c)
    ensures c.PriceText? ==> (r.Ok? <==> ParsePrice(KeepPriceChars(c.text)).Ok?)
    ensures c.PriceText? && r.Ok? ==> r.value.value == DecimalValue(KeepPriceChars(c.text))
  {
    match c
    case Amount(_) => Ok(c)
    case PriceText(s) =>
      match ParsePrice(KeepPriceChars(s))
      case Ok(n) => Ok(Amount(n))
      case Err(e) => Err(e)
  }

  /** `cleaned_price_column`: the first failing cell fails the whole column;
      otherwise every Price becomes an integer and nothing else changes. */
  function CleanPriceColumn(rows: seq<Listing>): (r: Result<seq<Listing>, PriceError>)
    ensures r.Ok? <==> forall i :: 0 <= i < |rows| ==> CleanPriceCell(rows[i].price).Ok?
    ensures r.Ok? ==> |r.value| == |rows|
    ensures r.Ok? ==> forall i :: 0 <= i < |rows| ==>
              r.value[i] == rows[i].(price := CleanPriceCell(rows[i].price).value)
    ensures r.Err? ==> exists i :: 0 <= i < |rows| && CleanPriceCell(rows[i].price) == Err(r.error)
                                   && forall j :: 0 <= j < i ==> CleanPriceCell(rows[j].price).Ok?
  {
    var fails := i => 0 <= i < |rows| && CleanPriceCell(rows[i].price).Err?;
    assert forall j :: fails(j) == (0 <= j < |rows| && CleanPriceCell(rows[j].price).Err?);
    match Leftmost(fails, 0, |rows|)
    case Some(i) => Err(CleanPriceCell(rows[i].price).error)
    case None =>
      Ok(seq(|rows|, i requires 0 <= i < |rows| => rows[i].(price := CleanPriceCell(rows[i].price).value)))
  }

  /** Cleaning an already cleaned column succeeds and changes nothing. */
  lemma CleanPriceColumnIdempotent(rows: seq<Listing>)
    requires CleanPriceColumn(rows).Ok?
    ensures CleanPriceColumn(CleanPriceColumn(rows).value) == CleanPriceColumn(rows)
  {
    var once := CleanPriceColumn(rows).value;
    var twice := CleanPriceColumn(once);
    assert twice.Ok?;
    assert twice.value == once;
  }
}
