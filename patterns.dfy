/** The three `re.search` calls of the scraper, written out by hand.

    Each pattern has a reference definition (`Matches`: which substrings the regular
    expression accepts), a scanner (`MatchAt`: what Python's backtracking matcher
    returns when it tries one start position) and a left-to-right search (`Search`:
    what `re.search` returns). `SearchSpec` proves that the search finds the leftmost
    match and, where the pattern has no alternation, the longest match at that start. */
module Patterns {
  import opened Text

  datatype CharClass = Digits | DigitsOrCommas | Whitespace

  predicate InClass(c: char, cls: CharClass) {
    match cls
    case Digits => IsDigit(c)
    case DigitsOrCommas => IsDigit(c) || c == ','
    case Whitespace => IsSpace(c)
  }

  /** Every character of `s[i..j]` is in `cls`. */
  predicate AllIn(s: string, i: int, j: int, cls: CharClass) {
    forall k :: i <= k < j ==> 0 <= k < |s| && InClass(s[k], cls)
  }

  /** The end of the longest run of `cls` characters that starts at `i`. */
  function RunEnd(s: string, i: nat, cls: CharClass): (r: nat)
    requires i <= |s|
    ensures i <= r <= |s|
    ensures AllIn(s, i, r, cls)
    ensures r < |s| ==> !InClass(s[r], cls)
    decreases |s| - i
  {
    if i < |s| && InClass(s[i], cls) then RunEnd(s, i + 1, cls) else i
  }

  lemma RunEndMaximal(s: string, i: nat, j: int, cls: CharClass)
    requires i <= |s| && AllIn(s, i, j, cls)
    ensures j <= RunEnd(s, i, cls)
  {
  }

  /** A run of `cls` characters inside `s[i..j]` is one in the slice too. */
  lemma AllInSlice(s: string, i: nat, j: nat, a: int, b: int, cls: CharClass)
    requires i <= a <= b <= j <= |s| && AllIn(s, a, b, cls)
    ensures AllIn(s[i..j], a - i, b - i, cls)
  {
    forall k | a - i <= k < b - i
      ensures 0 <= k < |s[i..j]| && InClass(s[i..j][k], cls)
    {
      assert s[i..j][k] == s[i + k];
    }
  }

  /** The patterns of ebay_scraper.py. */
  datatype Pattern =
    | PricePattern                    // \$?([\d,]+\.?\d*)
    | StoragePattern                  // (\d+)\s*(GB|TB) with re.IGNORECASE
    | Alternation(words: seq<string>) // (w0|w1|...) with re.IGNORECASE

  /** A match `s[start..end]`; `s[groupStart..end]` is the part the scraper reads out. */
  datatype Match = Match(start: nat, groupStart: nat, end: nat)

  /** `GB` or `TB`, in any case, at `s[w..w+2]`. */
  predicate UnitAt(s: string, w: int) {
    0 <= w && w + 2 <= |s| && (Fold(s[w]) == 'g' || Fold(s[w]) == 't') && Fold(s[w + 1]) == 'b'
  }

  /** The word `w` occurs at `s[i..]` under `re.IGNORECASE`. */
  predicate WordAt(s: string, i: int, w: string) {
    0 <= i && i + |w| <= |s| && forall k :: 0 <= k < |w| ==> Fold(s[i + k]) == Fold(w[k])
  }

  /** `s[i..e]` is an optional `$` (ending at `g`), a non-empty run of digits and
      commas `s[g..k]`, then either digits, or a dot and digits. */
  predicate PriceParts(s: string, i: int, g: int, k: int, e: int) {
    0 <= i <= g < k <= e <= |s|
    && (g == i || (g == i + 1 && s[i] == '$'))
    && AllIn(s, g, k, DigitsOrCommas)
    && (AllIn(s, k, e, Digits) || (k < e && s[k] == '.' && AllIn(s, k + 1, e, Digits)))
  }

  /** `s[i..e]` is digits `s[i..d]`, whitespace, then a unit. */
  predicate StorageParts(s: string, i: int, d: int, e: int) {
    0 <= i < d && d + 2 <= e <= |s|
    && AllIn(s, i, d, Digits)
    && AllIn(s, d, e - 2, Whitespace)
    && UnitAt(s, e - 2)
  }

  /** An occurrence of a word is the word up to case. */
  lemma WordAtSlice(s: string, i: nat, w: string)
    requires WordAt(s, i, w)
    ensures EqualsIgnoreCase(s[i..i + |w|], w)
  {
    var v := s[i..i + |w|];
    forall k | 0 <= k < |v| ensures Fold(v[k]) == Fold(w[k]) {
      assert v[k] == s[i + k];
    }
  }

  /** Reference definition: the regular expression accepts `s[i..e]`. */
  ghost predicate Matches(pat: Pattern, s: string, i: int, e: int) {
    0 <= i <= e <= |s| &&
    match pat
    case PricePattern => exists g, k :: PriceParts(s, i, g, k, e)
    case StoragePattern => exists d :: StorageParts(s, i, d, e)
    case Alternation(ws) => exists j :: 0 <= j < |ws| && WordAt(s, i, ws[j]) && e == i + |ws[j]|
  }

  /** `\.?\d*` tried greedily at `k`. */
  function FractionEnd(s: string, k: nat): (r: nat)
    requires k <= |s|
    ensures k <= r <= |s|
  {
    if k < |s| && s[k] == '.' then RunEnd(s, k + 1, Digits) else k
  }

  /** The first alternative, from index `j` on, that occurs at `p`. */
  function FirstWord(s: string, p: nat, ws: seq<string>, j: nat): (r: Option<nat>)
    ensures r.Some? ==> j <= r.value < |ws| && WordAt(s, p, ws[r.value])
    ensures forall j' :: j <= j' < |ws| && (r.None? || j' < r.value) ==> !WordAt(s, p, ws[j'])
    decreases |ws| - j
  {
    if j >= |ws| then None
    else if WordAt(s, p, ws[j]) then Some(j)
    else FirstWord(s, p, ws, j + 1)
  }

  /** What the backtracking matcher returns when it tries the pattern at `p`.
      All quantifiers are greedy; backtracking never helps for these patterns
      (a shorter digit or whitespace run is followed by a character that the
      rest of the pattern cannot start with), and an alternation takes the
      first alternative that occurs. */
  function MatchAt(pat: Pattern, s: string, p: nat): (r: Option<Match>)
    requires p <= |s|
    ensures r.Some? ==> r.value.start == p <= r.value.groupStart <= r.value.end <= |s|
  {
    match pat
    case PricePattern =>
      if p < |s| && InClass(s[p], DigitsOrCommas) then
        Some(Match(p, p, FractionEnd(s, RunEnd(s, p, DigitsOrCommas))))
      else if p + 1 < |s| && s[p] == '$' && InClass(s[p + 1], DigitsOrCommas) then
        Some(Match(p, p + 1, FractionEnd(s, RunEnd(s, p + 1, DigitsOrCommas))))
      else None
    case StoragePattern =>
      if p < |s| && IsDigit(s[p]) then
        var w := RunEnd(s, RunEnd(s, p, Digits), Whitespace);
        if UnitAt(s, w) then Some(Match(p, p, w + 2)) else None
      else None
    case Alternation(ws) =>
      match FirstWord(s, p, ws, 0)
      case None => None
      case Some(j) => Some(Match(p, p, p + |ws[j]|))
  }

  /** `re.search(pattern, s[from..])`: the first start position where the scanner succeeds. */
  function Search(pat: Pattern, s: string, from: nat): (r: Option<Match>)
    requires from <= |s|
    ensures r.Some? ==> from <= r.value.start <= |s| && MatchAt(pat, s, r.value.start) == r
    ensures forall p :: from <= p <= |s| && (r.None? || p < r.value.start) ==> MatchAt(pat, s, p).None?
    decreases |s| - from
  {
    match MatchAt(pat, s, from)
    case Some(m) => Some(m)
    case None => if from == |s| then None else Search(pat, s, from + 1)
  }

  /** What the scanner returns is a match of the pattern; a price group skips the `$`,
      and an alternation picks the first alternative that occurs. */
  lemma MatchAtSound(pat: Pattern, s: string, p: nat)
    requires p <= |s| && MatchAt(pat, s, p).Some?
    ensures Matches(pat, s, p, MatchAt(pat, s, p).value.end)
    ensures pat.PricePattern? ==>
      MatchAt(pat, s, p).value.groupStart == (if s[p] == '$' then p + 1 else p)
    ensures !pat.PricePattern? ==> MatchAt(pat, s, p).value.groupStart == p
    ensures pat.Alternation? ==>
      exists j :: && 0 <= j < |pat.words| && WordAt(s, p, pat.words[j])
                  && MatchAt(pat, s, p).value.end == p + |pat.words[j]|
                  && forall j' :: 0 <= j' < j ==> !WordAt(s, p, pat.words[j'])
  {
    var m := MatchAt(pat, s, p).value;
    match pat
    case PricePattern =>
      var g := m.groupStart;
      var k := RunEnd(s, g, DigitsOrCommas);
      assert k > g;
      if k < |s| && s[k] == '.' {
        assert PriceParts(s, p, g, k, m.end);
      } else {
        assert AllIn(s, k, m.end, Digits);
        assert PriceParts(s, p, g, k, m.end);
      }
    case StoragePattern =>
      var d := RunEnd(s, p, Digits);
      assert StorageParts(s, p, d, m.end);
    case Alternation(ws) =>
      var j := FirstWord(s, p, ws, 0).value;
      assert WordAt(s, p, ws[j]) && forall j' :: 0 <= j' < j ==> !WordAt(s, p, ws[j']);
  }

  /** Every match of the pattern at `p` is found by the scanner, and (apart from an
      alternation, where the order of the alternatives decides) none is longer than
      the one it returns. */
  lemma MatchAtComplete(pat: Pattern, s: string, p: nat, e: int)
    requires p <= |s| && Matches(pat, s, p, e)
    ensures MatchAt(pat, s, p).Some?
    ensures !pat.Alternation? ==> e <= MatchAt(pat, s, p).value.end
    ensures pat.StoragePattern? ==> e == MatchAt(pat, s, p).value.end
  {
    match pat
    case PricePattern =>
      var g, k :| PriceParts(s, p, g, k, e);
      PriceComplete(s, p, g, k, e);
    case StoragePattern =>
      var d :| StorageParts(s, p, d, e);
      StorageComplete(s, p, d, e);
    case Alternation(ws) =>
      var j :| 0 <= j < |ws| && WordAt(s, p, ws[j]) && e == p + |ws[j]|;
  }

  lemma PriceComplete(s: string, p: nat, g: int, k: int, e: int)
    requires PriceParts(s, p, g, k, e)
    ensures MatchAt(PricePattern, s, p).Some? && e <= MatchAt(PricePattern, s, p).value.end
  {
    assert s[g] == '$' || InClass(s[g], DigitsOrCommas);
    if g == p + 1 {
      assert !InClass(s[p], DigitsOrCommas);
    }
    var r := RunEnd(s, g, DigitsOrCommas);
    RunEndMaximal(s, g, k, DigitsOrCommas);
    if !AllIn(s, k, e, Digits) {
      assert !InClass(s[k], DigitsOrCommas);
      assert k == r;
      RunEndMaximal(s, k + 1, e, Digits);
    }
  }

  lemma StorageComplete(s: string, p: nat, d: int, e: int)
    requires StorageParts(s, p, d, e)
    ensures MatchAt(StoragePattern, s, p).Some? && e == MatchAt(StoragePattern, s, p).value.end
  {
    var r := RunEnd(s, p, Digits);
    RunEndMaximal(s, p, d, Digits);
    var w := RunEnd(s, r, Whitespace);
    RunEndMaximal(s, r, e - 2, Whitespace);
  }

  /** `re.search` returns the leftmost match, and for the price and storage patterns
      the longest match at that position; it returns nothing exactly when the
      pattern matches no substring. */
  lemma SearchSpec(pat: Pattern, s: string)
    ensures Search(pat, s, 0).None? ==> forall i, e :: !Matches(pat, s, i, e)
    ensures Search(pat, s, 0).Some? ==>
      var m := Search(pat, s, 0).value;
      && Matches(pat, s, m.start, m.end)
      && (forall i, e :: 0 <= i < m.start ==> !Matches(pat, s, i, e))
      && (!pat.Alternation? ==> forall e :: Matches(pat, s, m.start, e) ==> e <= m.end)
  {
    var r := Search(pat, s, 0);
    forall i, e | Matches(pat, s, i, e) && (r.None? || i < r.value.start)
      ensures false
    {
      MatchAtComplete(pat, s, i, e);
    }
    if r.Some? {
      var m := r.value;
      MatchAtSound(pat, s, m.start);
      forall e | Matches(pat, s, m.start, e) && !pat.Alternation?
        ensures e <= m.end
      {
        MatchAtComplete(pat, s, m.start, e);
      }
    }
  }
}
