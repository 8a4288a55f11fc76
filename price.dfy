/** The price of a listing (extract_price). */
module Price {
  import opened Text
  import opened Patterns

  /** The exact amount `units / 10^scale`; `float()` would round it to a double. */
  datatype Decimal = Decimal(units: nat, scale: nat)

  /** `None`, a parsed amount, or the `ValueError` that `float()` raises. */
  datatype PriceResult = NoPrice | Amount(amount: Decimal) | ConversionError

  /** `s.replace(',', '')`. */
  function RemoveCommas(s: string): (r: string)
    ensures |r| <= |s|
    ensures forall k :: 0 <= k < |r| ==> r[k] != ',' && r[k] in s
    decreases |s|
  {
    if s == [] then []
    else (if s[0] == ',' then [] else [s[0]]) + RemoveCommas(s[1..])
  }

  /** Every character other than a comma is kept. */
  lemma {:induction false} RemoveCommasKeeps(x: string)
    ensures forall k :: 0 <= k < |x| && x[k] != ',' ==> x[k] in RemoveCommas(x)
    decreases |x|
  {
    if x != [] {
      RemoveCommasKeeps(x[1..]);
      forall k | 0 <= k < |x| && x[k] != ','
        ensures x[k] in RemoveCommas(x)
      {
        if k > 0 {
          assert x[k] == x[1..][k - 1];
        }
      }
    }
  }

  lemma {:induction false} RemoveCommasAppend(x: string, y: string)
    ensures RemoveCommas(x + y) == RemoveCommas(x) + RemoveCommas(y)
    decreases |x|
  {
    if x != [] {
      var xy := x + y;
      assert xy[0] == x[0];
      assert xy[1..] == x[1..] + y;
      RemoveCommasAppend(x[1..], y);
      assert RemoveCommas(xy) == (if x[0] == ',' then [] else [x[0]]) + RemoveCommas(x[1..] + y);
    } else {
      assert x + y == y;
    }
  }

  lemma {:induction false} RemoveCommasNoComma(y: string)
    requires forall k :: 0 <= k < |y| ==> y[k] != ','
    ensures RemoveCommas(y) == y
    decreases |y|
  {
    if y != [] {
      RemoveCommasNoComma(y[1..]);
    }
  }

  /** Removing the commas of digits and commas leaves digits, and leaves nothing
      exactly when there were only commas. */
  lemma RemoveCommasDigits(x: string)
    requires forall k :: 0 <= k < |x| ==> IsDigit(x[k]) || x[k] == ','
    ensures forall k :: 0 <= k < |RemoveCommas(x)| ==> IsDigit(RemoveCommas(x)[k])
    ensures RemoveCommas(x) == "" <==> forall k :: 0 <= k < |x| ==> x[k] == ','
  {
    var r := RemoveCommas(x);
    forall k | 0 <= k < |r| ensures IsDigit(r[k]) {
      assert r[k] in x;
    }
    RemoveCommasKeeps(x);
  }

  function DigitValue(c: char): nat
    requires IsDigit(c)
  {
    c as int - '0' as int
  }

  /** The number a string of decimal digits denotes. */
  function NatOf(ds: string): nat
    requires forall k :: 0 <= k < |ds| ==> IsDigit(ds[k])
    decreases |ds|
  {
    if ds == [] then 0 else NatOf(ds[..|ds| - 1]) * 10 + DigitValue(ds[|ds| - 1])
  }

  /** A digit string denotes a positive number exactly when it has a digit other than 0. */
  lemma {:induction false} NatOfPositive(ds: string)
    requires forall k :: 0 <= k < |ds| ==> IsDigit(ds[k])
    ensures NatOf(ds) > 0 <==> exists k :: 0 <= k < |ds| && ds[k] != '0'
    decreases |ds|
  {
    if ds != [] {
      var init := ds[..|ds| - 1];
      NatOfPositive(init);
      if exists k :: 0 <= k < |ds| && ds[k] != '0' {
        var k :| 0 <= k < |ds| && ds[k] != '0';
        if k < |ds| - 1 {
          assert init[k] == ds[k];
        }
      }
      if exists k :: 0 <= k < |init| && init[k] != '0' {
        var k :| 0 <= k < |init| && init[k] != '0';
        assert ds[k] == init[k];
      }
    }
  }

  /** The index of the first `c` in `t`, or `|t|`. */
  function IndexOf(t: string, c: char): (r: nat)
    ensures r <= |t|
    ensures forall k :: 0 <= k < r ==> t[k] != c
    ensures r < |t| ==> t[r] == c
    decreases |t|
  {
    if t == [] then 0 else if t[0] == c then 0 else 1 + IndexOf(t[1..], c)
  }

  /** `float(t)` for a string of digits and dots: accepted when it has at most one dot
      and at least one digit; the value is exact. */
  function ToFloat(t: string): PriceResult
    requires forall k :: 0 <= k < |t| ==> IsDigit(t[k]) || t[k] == '.'
  {
    var dot := IndexOf(t, '.');
    var whole := t[..dot];
    var frac := if dot < |t| then t[dot + 1..] else "";
    if '.' in frac || whole + frac == "" then ConversionError
    else
      assert forall k :: 0 <= k < |frac| ==> frac[k] == t[dot + 1 + k];
      Amount(Decimal(NatOf(whole + frac), |frac|))
  }

  /** The shape of a price group `g`: a non-empty run of digits and commas up to `k`,
      then nothing, or a dot and digits. */
  predicate GroupShape(g: string, k: nat) {
    && 0 < k <= |g|
    && (forall i :: 0 <= i < k ==> IsDigit(g[i]) || g[i] == ',')
    && (k == |g| || (g[k] == '.' && forall i :: k < i < |g| ==> IsDigit(g[i])))
  }

  /** The group of a price match has the price group shape. */
  lemma PriceGroupShape(s: string, p: nat) returns (k: nat)
    requires p <= |s| && MatchAt(PricePattern, s, p).Some?
    ensures var m := MatchAt(PricePattern, s, p).value;
      GroupShape(s[m.groupStart..m.end], k)
  {
    var m := MatchAt(PricePattern, s, p).value;
    var g := s[m.groupStart..m.end];
    var r := RunEnd(s, m.groupStart, DigitsOrCommas);
    k := r - m.groupStart;
    forall i | 0 <= i < |g| ensures g[i] == s[m.groupStart + i] {
    }
  }

  /** The comma-stripped group of a price match holds only digits and dots. */
  lemma PriceGroupChars(s: string, p: nat)
    requires p <= |s| && MatchAt(PricePattern, s, p).Some?
    ensures var m := MatchAt(PricePattern, s, p).value;
      var t := RemoveCommas(s[m.groupStart..m.end]);
      forall i :: 0 <= i < |t| ==> IsDigit(t[i]) || t[i] == '.'
  {
    var m := MatchAt(PricePattern, s, p).value;
    var k := PriceGroupShape(s, p);
    var g := s[m.groupStart..m.end];
    assert forall i :: 0 <= i < |g| ==> IsDigit(g[i]) || g[i] == ',' || g[i] == '.';
  }

  /** `float()` of digits `whole`, optionally followed by a dot and digits `frac`. */
  lemma ToFloatParts(whole: string, frac: string, hasDot: bool)
    requires forall i :: 0 <= i < |whole| ==> IsDigit(whole[i])
    requires forall i :: 0 <= i < |frac| ==> IsDigit(frac[i])
    requires !hasDot ==> frac == ""
    ensures var t := whole + (if hasDot then "." + frac else "");
      && (forall k :: 0 <= k < |t| ==> IsDigit(t[k]) || t[k] == '.')
      && ToFloat(t) == if whole + frac == "" then ConversionError
                       else Amount(Decimal(NatOf(whole + frac), |frac|))
  {
    var t := whole + (if hasDot then "." + frac else "");
    assert forall k :: 0 <= k < |t| ==> IsDigit(t[k]) || t[k] == '.';
    var dot := IndexOf(t, '.');
    if hasDot {
      assert t[|whole|] == '.';
      assert dot == |whole|;
      assert t[..dot] == whole;
      assert t[dot + 1..] == frac;
    } else {
      assert t == whole;
      assert dot == |t|;
    }
  }

  /** A price group split at the end `k` of its digits-and-commas run: `whole` is that
      run without commas, `frac` the digits after the dot, if any. */
  lemma GroupParts(g: string, k: nat) returns (whole: string, frac: string, hasDot: bool)
    requires GroupShape(g, k)
    ensures whole == RemoveCommas(g[..k])
    ensures forall i :: 0 <= i < |whole| ==> IsDigit(whole[i])
    ensures hasDot <==> k < |g|
    ensures hasDot ==> frac == g[k + 1..]
    ensures !hasDot ==> frac == ""
    ensures forall i :: 0 <= i < |frac| ==> IsDigit(frac[i])
    ensures RemoveCommas(g) == whole + (if hasDot then "." + frac else "")
  {
    var head, tail := g[..k], g[k..];
    assert g == head + tail;
    RemoveCommasAppend(head, tail);
    RemoveCommasNoComma(tail);
    RemoveCommasDigits(head);
    whole := RemoveCommas(head);
    hasDot := k < |g|;
    if hasDot {
      frac := g[k + 1..];
      assert tail == "." + frac;
    } else {
      frac := "";
      assert tail == "";
    }
  }

  /** `extract_price`: `None` for missing or empty text; otherwise the first match of
      `\$?([\d,]+\.?\d*)`, its commas removed and converted by `float()`. */
  function ExtractPrice(priceText: Option<string>): (r: PriceResult)
    ensures priceText.None? ==> r.NoPrice?
  {
    if priceText.None? || priceText.value == "" then NoPrice
    else
      var s := priceText.value;
      match Search(PricePattern, s, 0)
      case None => NoPrice
      case Some(m) =>
        PriceGroupChars(s, m.start);
        ToFloat(RemoveCommas(s[m.groupStart..m.end]))
  }

  /** A digit or a comma alone is a match. */
  lemma OneCharMatches(s: string, k: nat)
    requires k < |s| && (IsDigit(s[k]) || s[k] == ',')
    ensures Matches(PricePattern, s, k, k + 1)
  {
    assert PriceParts(s, k, k, k + 1, k + 1);
  }

  /** Exactly the text without a digit and without a comma (the empty text included)
      gives no price. */
  lemma NoPriceExactly(s: string)
    ensures ExtractPrice(Some(s)).NoPrice? <==> forall k :: 0 <= k < |s| ==> !IsDigit(s[k]) && s[k] != ','
  {
    SearchSpec(PricePattern, s);
    match Search(PricePattern, s, 0)
    case None =>
      forall k | 0 <= k < |s|
        ensures !IsDigit(s[k]) && s[k] != ','
      {
        if IsDigit(s[k]) || s[k] == ',' {
          OneCharMatches(s, k);
        }
      }
    case Some(m) =>
      MatchAtSound(PricePattern, s, m.start);
      assert IsDigit(s[m.groupStart]) || s[m.groupStart] == ',';
  }

  /** The result is read from the leftmost match, and from the longest match at that
      start: the group after the optional `$`, commas removed, converted by `float()`. */
  lemma ExtractPriceReadsFirstMatch(s: string)
    requires exists k :: 0 <= k < |s| && (IsDigit(s[k]) || s[k] == ',')
    ensures Search(PricePattern, s, 0).Some?
    ensures var m := Search(PricePattern, s, 0).value;
      && Matches(PricePattern, s, m.start, m.end)
      && (forall i, e :: 0 <= i < m.start ==> !Matches(PricePattern, s, i, e))
      && (forall e :: Matches(PricePattern, s, m.start, e) ==> e <= m.end)
    ensures var m := Search(PricePattern, s, 0).value;
      && m.start < |s|
      && m.groupStart == m.start + (if s[m.start] == '$' then 1 else 0)
    ensures var m := Search(PricePattern, s, 0).value;
      var t := RemoveCommas(s[m.groupStart..m.end]);
      && (forall i :: 0 <= i < |t| ==> IsDigit(t[i]) || t[i] == '.')
      && ExtractPrice(Some(s)) == ToFloat(t)
  {
    NoPriceExactly(s);
    SearchSpec(PricePattern, s);
    var m := Search(PricePattern, s, 0).value;
    MatchAtSound(PricePattern, s, m.start);
    PriceGroupChars(s, m.start);
  }

  /** The run of digits and commas loses everything to comma removal exactly when it
      holds no digit. */
  lemma HeadDigits(g: string, k: nat)
    requires k <= |g| && forall i :: 0 <= i < k ==> IsDigit(g[i]) || g[i] == ','
    ensures RemoveCommas(g[..k]) == "" <==> forall i :: 0 <= i < k ==> !IsDigit(g[i])
  {
    var head := g[..k];
    RemoveCommasDigits(head);
    assert forall i :: 0 <= i < k ==> head[i] == g[i];
  }

  /** The comma-stripped group is empty, or a lone dot, exactly when the group holds
      no digit. */
  lemma GroupDigits(g: string, k: nat)
    requires GroupShape(g, k)
    ensures (RemoveCommas(g) == "" || RemoveCommas(g) == ".") <==> forall c :: c in g ==> !IsDigit(c)
  {
    var whole, frac, hasDot := GroupParts(g, k);
    HeadDigits(g, k);
    var t := RemoveCommas(g);
    if whole != "" {
      assert t[0] == whole[0] && IsDigit(t[0]);
    } else if hasDot {
      assert t == "." + frac;
      if frac != "" {
        assert |t| > 1;
      }
    } else {
      assert t == "";
    }
    if hasDot {
      assert !IsDigit(g[k]);
      if frac != "" {
        assert IsDigit(g[k + 1]);
      } else {
        assert k + 1 == |g|;
      }
    } else {
      assert k == |g|;
    }
    assert whole == "" && frac == "" <==> forall i :: 0 <= i < |g| ==> !IsDigit(g[i]);
  }

  /** `float()` raises exactly when the first match holds no digit: commas, possibly
      followed by a dot. */
  lemma ConversionErrorExactly(s: string)
    ensures ExtractPrice(Some(s)).ConversionError? <==>
      && Search(PricePattern, s, 0).Some?
      && var m := Search(PricePattern, s, 0).value;
         forall c :: c in s[m.groupStart..m.end] ==> !IsDigit(c)
  {
    if s != "" && Search(PricePattern, s, 0).Some? {
      var m := Search(PricePattern, s, 0).value;
      var g := s[m.groupStart..m.end];
      var k := PriceGroupShape(s, m.start);
      var whole, frac, hasDot := GroupParts(g, k);
      ToFloatParts(whole, frac, hasDot);
      GroupDigits(g, k);
    }
  }

  /** Removing commas keeps exactly the digits other than 0 that were there. */
  lemma RemoveCommasNonzero(x: string)
    ensures (exists c :: c in RemoveCommas(x) && IsDigit(c) && c != '0')
        <==> (exists c :: c in x && IsDigit(c) && c != '0')
  {
    var r := RemoveCommas(x);
    if exists c :: c in r && IsDigit(c) && c != '0' {
      var c :| c in r && IsDigit(c) && c != '0';
      var j :| 0 <= j < |r| && r[j] == c;
      assert c in x;
    }
    if exists c :: c in x && IsDigit(c) && c != '0' {
      var c :| c in x && IsDigit(c) && c != '0';
      RemoveCommasKeeps(x);
      var i :| 0 <= i < |x| && x[i] == c;
      assert c in r;
    }
  }

  /** Digits with a dot inserted hold the same digits other than 0. */
  lemma DotKeepsNonzero(whole: string, frac: string, hasDot: bool)
    requires forall i :: 0 <= i < |whole| ==> IsDigit(whole[i])
    requires forall i :: 0 <= i < |frac| ==> IsDigit(frac[i])
    ensures var t := whole + (if hasDot then "." + frac else frac);
      (exists j :: 0 <= j < |whole + frac| && (whole + frac)[j] != '0')
      <==> (exists c :: c in t && IsDigit(c) && c != '0')
  {
    var t := whole + (if hasDot then "." + frac else frac);
    var ds := whole + frac;
    if exists j :: 0 <= j < |ds| && ds[j] != '0' {
      var j :| 0 <= j < |ds| && ds[j] != '0';
      if j < |whole| {
        assert t[j] == ds[j];
      } else if hasDot {
        assert t[j + 1] == ds[j];
      } else {
        assert t[j] == ds[j];
      }
    }
    if exists c :: c in t && IsDigit(c) && c != '0' {
      var c :| c in t && IsDigit(c) && c != '0';
      var j :| 0 <= j < |t| && t[j] == c;
      if j < |whole| {
        assert ds[j] == c;
      } else if hasDot {
        assert ds[j - 1] == c;
      } else {
        assert ds[j] == c;
      }
    }
  }

  /** A parsed amount is non-zero (truthy) exactly when the matched text has a digit
      other than 0. */
  lemma AmountPositiveExactly(s: string)
    requires ExtractPrice(Some(s)).Amount?
    ensures var m := Search(PricePattern, s, 0).value;
      ExtractPrice(Some(s)).amount.units > 0 <==>
      exists c :: c in s[m.groupStart..m.end] && IsDigit(c) && c != '0'
  {
    var m := Search(PricePattern, s, 0).value;
    var g := s[m.groupStart..m.end];
    var k := PriceGroupShape(s, m.start);
    GroupValue(g, k);
    assert ExtractPrice(Some(s)) == ToFloat(RemoveCommas(g));
  }

  /** A parsed group is non-zero exactly when it has a digit other than 0. */
  lemma GroupValue(g: string, k: nat)
    requires GroupShape(g, k)
    ensures var t := RemoveCommas(g);
      && (forall i :: 0 <= i < |t| ==> IsDigit(t[i]) || t[i] == '.')
      && (ToFloat(t).Amount? ==> (ToFloat(t).amount.units > 0 <==> exists c :: c in g && IsDigit(c) && c != '0'))
  {
    var whole, frac, hasDot := GroupParts(g, k);
    ToFloatParts(whole, frac, hasDot);
    NatOfPositive(whole + frac);
    DotKeepsNonzero(whole, frac, hasDot);
    assert (if hasDot then "." + frac else frac) == (if hasDot then "." + frac else "");
    RemoveCommasNonzero(g);
  }

  /** `"$1,234.56"` is 1234.56. */
  lemma ExampleDollars(s: string)
    requires s == "$1,234.56"
    ensures ExtractPrice(Some(s)) == Amount(Decimal(123456, 2))
  {
    DollarsMatch(s);
    var g := s[1..9];
    var k := PriceGroupShape(s, 0);
    var whole, frac, hasDot := GroupParts(g, k);
    DollarsParts(g, k, whole, frac);
    ToFloatParts(whole, frac, hasDot);
    assert whole + frac == "123456";
    NatOfExample();
  }

  lemma NatOfExample()
    ensures NatOf("123456") == 123456
  {
    assert "123456"[..5] == "12345";
    assert "12345"[..4] == "1234";
    assert "1234"[..3] == "123";
    assert "123"[..2] == "12";
    assert "12"[..1] == "1";
    assert "1"[..0] == "";
  }

  lemma DollarsMatch(s: string)
    requires s == "$1,234.56"
    ensures Search(PricePattern, s, 0) == Some(Match(0, 1, 9))
  {
    assert RunEnd(s, 6, DigitsOrCommas) == 6;
    assert RunEnd(s, 5, DigitsOrCommas) == 6;
    assert RunEnd(s, 4, DigitsOrCommas) == 6;
    assert RunEnd(s, 3, DigitsOrCommas) == 6;
    assert RunEnd(s, 2, DigitsOrCommas) == 6;
    assert RunEnd(s, 1, DigitsOrCommas) == 6;
    assert RunEnd(s, 8, Digits) == 9;
    assert RunEnd(s, 7, Digits) == 9;
  }

  lemma DollarsParts(g: string, k: nat, whole: string, frac: string)
    requires g == "1,234.56"
    requires GroupShape(g, k)
    requires k < |g| ==> frac == g[k + 1..]
    requires whole == RemoveCommas(g[..k])
    ensures whole == "1234" && frac == "56"
  {
    assert g[5] == '.';
    assert k == 5;
    assert g[..5] == "1,234";
    assert g[6..] == "56";
    assert "1,234"[1..] == ",234";
    assert ",234"[1..] == "234";
    RemoveCommasNoComma("234");
  }

  /** Text with no digit and no comma gives no price. */
  lemma ExampleNoPrice(s: string)
    requires s == "No price"
    ensures ExtractPrice(Some(s)) == NoPrice
  {
    NoPriceExactly(s);
    NoDigitNoComma();
  }

  lemma NoDigitNoComma()
    ensures forall k :: 0 <= k < |"No price"| ==> !IsDigit("No price"[k]) && "No price"[k] != ','
  {
  }

  /** A lone comma is matched, and `float('')` raises. */
  lemma ExampleLoneComma(s: string)
    requires s == ","
    ensures ExtractPrice(Some(s)) == ConversionError
  {
    assert Search(PricePattern, s, 0) == Some(Match(0, 0, 1));
    assert RemoveCommas(s) == "";
  }
}
