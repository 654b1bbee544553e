/** The matching primitives the cleaning rules are built from: ASCII character
    classes, the regex word boundary `\b`, maximal runs (greedy `+` and `*`),
    leftmost search (`re.search`), substring tests (`in`), `str.strip` and
    `str.replace(old, '', 1)`.

    Only ASCII is modelled. A word character is an ASCII letter, digit or `_`;
    whitespace is the ASCII part of Python's `\s` and `str.isspace`. */
module Text {
  import opened Wrappers

  predicate IsUpper(c: char) { 'A' <= c <= 'Z' }
  predicate IsLower(c: char) { 'a' <= c <= 'z' }
  predicate IsLetter(c: char) { IsUpper(c) || IsLower(c) }
  predicate IsDigit(c: char) { '0' <= c <= '9' }
  predicate IsAlnum(c: char) { IsLetter(c) || IsDigit(c) }

  /** `\w` */
  predicate IsWordChar(c: char) { IsAlnum(c) || c == '_' }

  /** `\s`: space, \t \n \v \f \r and the separators \x1c-\x1f. */
  predicate IsSpace(c: char) {
    c == ' ' || '\t' <= c <= '\r' || '\U{1C}' <= c <= '\U{1F}'
  }

  /** Case folding used by `re.IGNORECASE` on ASCII letters. */
  function Lower(c: char): char {
    if IsUpper(c) then (c as int + 32) as char else c
  }

  /** `\b` at position i of s: exactly one side of i is a word character. */
  predicate IsBoundary(s: string, i: int) {
    0 <= i <= |s| && ((0 < i && IsWordChar(s[i - 1])) != (i < |s| && IsWordChar(s[i])))
  }

  /** The escaped literal p matches s at i under `re.IGNORECASE`. */
  predicate MatchesIgnoringCaseAt(s: string, p: string, i: int) {
    0 <= i && i + |p| <= |s| && forall k :: 0 <= k < |p| ==> Lower(s[i + k]) == Lower(p[k])
  }

  /** `\b<p>\b` with `re.IGNORECASE` matches s at i. */
  predicate WordOccursAt(s: string, p: string, i: int) {
    MatchesIgnoringCaseAt(s, p, i) && IsBoundary(s, i) && IsBoundary(s, i + |p|)
  }

  /** p occurs in s at i, case-sensitively. */
  predicate OccursAt(s: string, p: string, i: int) {
    0 <= i && i + |p| <= |s| && s[i..i + |p|] == p
  }

  /** The leftmost position in [k, n) where P holds: the scan `re.search`
      and `str.find` make over candidate start positions. */
  function Leftmost(P: int -> bool, k: nat, n: nat): (r: Option<nat>)
    ensures r.Some? ==> k <= r.value < n && P(r.value)
    ensures r.Some? ==> forall j :: k <= j < r.value ==> !P(j)
    ensures r.None? <==> forall j :: k <= j < n ==> !P(j)
    decreases n - k
  {
    if k >= n then None
    else if P(k) then Some(k)
    else Leftmost(P, k + 1, n)
  }

  /** `s.find(p)`, with None for -1. */
  function IndexOf(s: string, p: string): (r: Option<nat>)
    ensures r.Some? ==> OccursAt(s, p, r.value)
    ensures r.Some? ==> forall j :: 0 <= j < r.value ==> !OccursAt(s, p, j)
    ensures r.None? <==> forall j :: !OccursAt(s, p, j)
  {
    var at := i => OccursAt(s, p, i);
    assert forall j :: at(j) == OccursAt(s, p, j);
    Leftmost(at, 0, |s| + 1)
  }

  /** Python's `p in s` on strings. */
  predicate Contains(s: string, p: string) {
    IndexOf(s, p).Some?
  }

  /** `re.search(r'\b' + re.escape(p) + r'\b', s, flags=re.IGNORECASE)` succeeds. */
  function ContainsWord(s: string, p: string): (b: bool)
    ensures b <==> exists i :: WordOccursAt(s, p, i)
  {
    var at := i => WordOccursAt(s, p, i);
    assert forall j :: at(j) == WordOccursAt(s, p, j);
    Leftmost(at, 0, |s| + 1).Some?
  }

  /** The first entry of names that occurs word-bounded and case-insensitively
      in s, in the list's own spelling: a `for` loop over a name list that
      returns on its first hit. */
  function FirstWordFound(names: seq<string>, s: string): (r: Option<string>)
    ensures r.None? <==> forall k :: 0 <= k < |names| ==> !ContainsWord(s, names[k])
    ensures r.Some? ==> exists k :: 0 <= k < |names| && names[k] == r.value && ContainsWord(s, names[k])
                                    && forall j :: 0 <= j < k ==> !ContainsWord(s, names[j])
    ensures forall k :: 0 <= k < |names| && ContainsWord(s, names[k])
                        && (forall j :: 0 <= j < k ==> !ContainsWord(s, names[j]))
                        ==> r == Some(names[k])
  {
    var found := k => 0 <= k < |names| && ContainsWord(s, names[k]);
    assert forall k :: found(k) == (0 <= k < |names| && ContainsWord(s, names[k]));
    match Leftmost(found, 0, |names|)
    case None => None
    case Some(k) => Some(names[k])
  }

  /** Length of the maximal run of characters satisfying P that starts at k:
      what a greedy `P+` or `P*` consumes from k. */
  function RunFrom(s: string, k: nat, P: char -> bool): (n: nat)
    requires k <= |s|
    ensures k + n <= |s|
    ensures forall j :: k <= j < k + n ==> P(s[j])
    ensures k + n == |s| || !P(s[k + n])
    decreases |s| - k
  {
    if k == |s| || !P(s[k]) then 0 else 1 + RunFrom(s, k + 1, P)
  }

  /** Length of the maximal run of characters satisfying P that ends just
      before position e. */
  function RunBefore(s: string, e: nat, P: char -> bool): (n: nat)
    requires e <= |s|
    ensures n <= e
    ensures forall j :: e - n <= j < e ==> P(s[j])
    ensures n == e || !P(s[e - n - 1])
  {
    if e == 0 || !P(s[e - 1]) then 0 else 1 + RunBefore(s, e - 1, P)
  }

  /** r is s[a..a + |r|] and everything outside that slice is whitespace. */
  predicate TrimmedAt(s: string, r: string, a: int) {
    0 <= a && a + |r| <= |s| && s[a..a + |r|] == r
    && (forall j :: 0 <= j < a ==> IsSpace(s[j]))
    && (forall j :: a + |r| <= j < |s| ==> IsSpace(s[j]))
  }

  /** `s.strip()`: s without its leading and trailing whitespace. */
  function Strip(s: string): (r: string)
    ensures exists a :: TrimmedAt(s, r, a)
    ensures |r| > 0 ==> !IsSpace(r[0]) && !IsSpace(r[|r| - 1])
  {
    var a := RunFrom(s, 0, IsSpace);
    var b := |s| - RunBefore(s, |s|, IsSpace);
    assert a < |s| ==> a < b by {
      if a < |s| {
        assert !IsSpace(s[a]);
      }
    }
    if a < b then
      assert TrimmedAt(s, s[a..b], a);
      s[a..b]
    else
      assert TrimmedAt(s, [], |s|);
      []
  }

  /** `s.replace(p, '', 1)`: the leftmost occurrence of p removed, wherever it is. */
  function RemoveFirst(s: string, p: string): (r: string)
    ensures (forall i :: !OccursAt(s, p, i)) ==> r == s
    ensures forall i :: OccursAt(s, p, i) && (forall j :: 0 <= j < i ==> !OccursAt(s, p, j))
                        ==> r == s[..i] + s[i + |p|..]
  {
    match IndexOf(s, p)
    case Some(i) => s[..i] + s[i + |p|..]
    case None => s
  }

  /** A phrase holding a letter that s lacks, in either case, never occurs in s. */
  lemma AbsentCharBlocksWord(s: string, p: string, k: int)
    requires 0 <= k < |p| && forall j :: 0 <= j < |s| ==> Lower(s[j]) != Lower(p[k])
    ensures !ContainsWord(s, p)
  {
  }

  /** A phrase holding two adjacent letters that never stand side by side in
      s, in either case, never occurs in s. */
  lemma AbsentPairBlocksWord(s: string, p: string, k: int)
    requires 0 <= k && k + 1 < |p|
    requires forall j :: 0 <= j && j + 1 < |s| ==> Lower(s[j]) != Lower(p[k]) || Lower(s[j + 1]) != Lower(p[k + 1])
    ensures !ContainsWord(s, p)
  {
  }

  /** Stripping a text that neither starts nor ends with whitespace changes nothing. */
  lemma StripUnchanged(s: string)
    requires |s| > 0 && !IsSpace(s[0]) && !IsSpace(s[|s| - 1])
    ensures Strip(s) == s
  {
  }

  /** Removing the first occurrence of p from p + u leaves u. */
  lemma RemoveFirstOfPrefix(p: string, u: string)
    ensures RemoveFirst(p + u, p) == u
  {
  }

  /** A string holding a character that s lacks never occurs in s. */
  lemma AbsentCharBlocksOccurrence(s: string, p: string, k: int)
    requires 0 <= k < |p| && forall j :: 0 <= j < |s| ==> s[j] != p[k]
    ensures forall i :: !OccursAt(s, p, i)
  {
    forall i | 0 <= i ensures !OccursAt(s, p, i) {
      if i + |p| <= |s| {
        assert s[i..i + |p|][k] == s[i + k];
      }
    }
  }
}
