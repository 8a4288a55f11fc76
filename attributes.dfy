/** Storage, color and condition read from a listing title (extract_attributes). */
module Attributes {
  import opened Text
  import opened Patterns

  const ColorWords: seq<string> := ["Black", "White", "Gold", "Silver", "Gray", "Rose Gold", "Blue", "Red"]
  const ConditionWords: seq<string> := ["New", "Pre-owned", "Refurbished", "Used"]

  const ColorPattern: Pattern := Alternation(ColorWords)
  const ConditionPattern: Pattern := Alternation(ConditionWords)

  /** The attributes found in a title; a dimension without a match has no value. */
  datatype Attributes = Attributes(storage: Option<string>, color: Option<string>, condition: Option<string>)

  /** `m.group()` of the first match of `pat` in `s`, if any. */
  function FirstMatch(pat: Pattern, s: string): Option<string> {
    match Search(pat, s, 0)
    case None => None
    case Some(m) => Some(s[m.start..m.end])
  }

  /** `m.group(1)` of the first match of `pat` in `s`, if any. */
  function FirstGroup(pat: Pattern, s: string): Option<string> {
    match Search(pat, s, 0)
    case None => None
    case Some(m) => Some(s[m.groupStart..m.end])
  }

  /** What extract_attributes computes for a title. */
  function AttributesOf(description: string): Attributes {
    Attributes(FirstMatch(StoragePattern, description),
               FirstGroup(ColorPattern, description),
               FirstGroup(ConditionPattern, description))
  }

  /** extract_attributes: the attributes dictionary filled one dimension at a time. */
  method ExtractAttributes(description: string) returns (attributes: Attributes)
    ensures attributes == AttributesOf(description)
  {
    attributes := Attributes(None, None, None);

    var storageMatch := Search(StoragePattern, description, 0);
    if storageMatch.Some? {
      var m := storageMatch.value;
      attributes := attributes.(storage := Some(description[m.start..m.end]));
    }

    var colorMatch := Search(ColorPattern, description, 0);
    if colorMatch.Some? {
      var m := colorMatch.value;
      attributes := attributes.(color := Some(description[m.groupStart..m.end]));
    }

    var conditionMatch := Search(ConditionPattern, description, 0);
    if conditionMatch.Some? {
      var m := conditionMatch.value;
      attributes := attributes.(condition := Some(description[m.groupStart..m.end]));
    }
  }

  /** `v` occurs in `s`. */
  predicate Substring(v: string, s: string) {
    exists i, j :: 0 <= i <= j <= |s| && s[i..j] == v
  }

  /** Every value found is a substring of the title. */
  lemma ValuesAreSubstrings(description: string)
    ensures var a := AttributesOf(description);
      && (a.storage.Some? ==> Substring(a.storage.value, description))
      && (a.color.Some? ==> Substring(a.color.value, description))
      && (a.condition.Some? ==> Substring(a.condition.value, description))
  {
    var a := AttributesOf(description);
    if a.storage.Some? {
      var m := Search(StoragePattern, description, 0).value;
      assert description[m.start..m.end] == a.storage.value;
    }
    if a.color.Some? {
      var m := Search(ColorPattern, description, 0).value;
      assert description[m.groupStart..m.end] == a.color.value;
    }
    if a.condition.Some? {
      var m := Search(ConditionPattern, description, 0).value;
      assert description[m.groupStart..m.end] == a.condition.value;
    }
  }

  /** Storage: absent exactly when no substring is digits, optional whitespace and
      GB or TB in any case; otherwise the leftmost such substring, which has that shape. */
  lemma StorageFound(description: string)
    ensures AttributesOf(description).storage.None? <==>
      forall i, e :: !Matches(StoragePattern, description, i, e)
    ensures AttributesOf(description).storage.Some? ==>
      var m := Search(StoragePattern, description, 0).value;
      && AttributesOf(description).storage.value == description[m.start..m.end]
      && Matches(StoragePattern, description, m.start, m.end)
      && forall i, e :: 0 <= i < m.start ==> !Matches(StoragePattern, description, i, e)
  {
    SearchSpec(StoragePattern, description);
  }

  /** The shape of a storage value: digits, optional whitespace, then GB or TB in any case. */
  predicate StorageShaped(v: string) {
    && |v| >= 3
    && (exists n :: 0 < n <= |v| - 2 && AllIn(v, 0, n, Digits) && AllIn(v, n, |v| - 2, Whitespace))
    && (Fold(v[|v| - 2]) == 'g' || Fold(v[|v| - 2]) == 't')
    && Fold(v[|v| - 1]) == 'b'
  }

  lemma PartsShaped(s: string, i: nat, d: nat, e: nat)
    requires StorageParts(s, i, d, e)
    ensures StorageShaped(s[i..e])
  {
    var v := s[i..e];
    AllInSlice(s, i, e, i, d, Digits);
    AllInSlice(s, i, e, d, e - 2, Whitespace);
    assert v[|v| - 2] == s[e - 2] && v[|v| - 1] == s[e - 1];
    assert 0 < d - i <= |v| - 2;
  }

  /** A storage value has the storage shape. */
  lemma StorageShape(description: string)
    requires AttributesOf(description).storage.Some?
    ensures StorageShaped(AttributesOf(description).storage.value)
  {
    var m := Search(StoragePattern, description, 0).value;
    MatchAtSound(StoragePattern, description, m.start);
    var d :| StorageParts(description, m.start, d, m.end);
    PartsShaped(description, m.start, d, m.end);
  }

  lemma WordMatches(ws: seq<string>, s: string, i: nat, j: nat)
    requires j < |ws| && WordAt(s, i, ws[j])
    ensures Matches(Alternation(ws), s, i, i + |ws[j]|)
  {
  }

  /** No word of the alternation `ws` is found exactly when none occurs anywhere. */
  lemma WordAbsent(ws: seq<string>, description: string)
    ensures FirstGroup(Alternation(ws), description).None? <==>
      forall i, j :: 0 <= j < |ws| ==> !WordAt(description, i, ws[j])
  {
    var pat := Alternation(ws);
    SearchSpec(pat, description);
    if FirstGroup(pat, description).None? {
      forall i, j | 0 <= j < |ws| ensures !WordAt(description, i, ws[j]) {
        if WordAt(description, i, ws[j]) {
          WordMatches(ws, description, i, j);
        }
      }
    } else {
      var m := Search(pat, description, 0).value;
      MatchAtSound(pat, description, m.start);
    }
  }

  lemma WordLeftmost(ws: seq<string>, description: string)
    requires Search(Alternation(ws), description, 0).Some?
    ensures var m := Search(Alternation(ws), description, 0).value;
      forall i, j :: 0 <= i < m.start && 0 <= j < |ws| ==> !WordAt(description, i, ws[j])
  {
    var pat := Alternation(ws);
    SearchSpec(pat, description);
    var m := Search(pat, description, 0).value;
    forall i, j | 0 <= i < m.start && 0 <= j < |ws| ensures !WordAt(description, i, ws[j]) {
      if WordAt(description, i, ws[j]) {
        WordMatches(ws, description, i, j);
      }
    }
  }

  /** A word found by `FirstGroup` is the text at the leftmost position where a word of
      `ws` occurs, equal up to case to the first word (in pattern order) occurring there. */
  lemma WordFound(ws: seq<string>, description: string)
    requires FirstGroup(Alternation(ws), description).Some?
    ensures var m := Search(Alternation(ws), description, 0).value;
      var v := FirstGroup(Alternation(ws), description).value;
      && v == description[m.start..m.end]
      && (forall i, j :: 0 <= i < m.start && 0 <= j < |ws| ==> !WordAt(description, i, ws[j]))
      && exists j :: && 0 <= j < |ws| && WordAt(description, m.start, ws[j])
                     && EqualsIgnoreCase(v, ws[j])
                     && forall j' :: 0 <= j' < j ==> !WordAt(description, m.start, ws[j'])
  {
    var pat := Alternation(ws);
    var m := Search(pat, description, 0).value;
    WordLeftmost(ws, description);
    MatchAtSound(pat, description, m.start);
    var j :| && 0 <= j < |ws| && WordAt(description, m.start, ws[j])
             && m.end == m.start + |ws[j]|
             && forall j' :: 0 <= j' < j ==> !WordAt(description, m.start, ws[j']);
    WordAtSlice(description, m.start, ws[j]);
  }

  /** Color and condition values are vocabulary words up to case. */
  lemma ColorAndConditionFound(description: string)
    ensures var c := AttributesOf(description).color;
      c.Some? ==> exists j :: 0 <= j < |ColorWords| && EqualsIgnoreCase(c.value, ColorWords[j])
    ensures var c := AttributesOf(description).condition;
      c.Some? ==> exists j :: 0 <= j < |ConditionWords| && EqualsIgnoreCase(c.value, ConditionWords[j])
    ensures AttributesOf(description).color.None? <==>
      forall i, j :: 0 <= j < |ColorWords| ==> !WordAt(description, i, ColorWords[j])
    ensures AttributesOf(description).condition.None? <==>
      forall i, j :: 0 <= j < |ConditionWords| ==> !WordAt(description, i, ConditionWords[j])
  {
    WordAbsent(ColorWords, description);
    WordAbsent(ConditionWords, description);
    if AttributesOf(description).color.Some? {
      WordFound(ColorWords, description);
    }
    if AttributesOf(description).condition.Some? {
      WordFound(ConditionWords, description);
    }
  }

  /** A word cannot occur where no character folds to its first letter. */
  lemma NoFirstLetter(s: string, w: string)
    requires w != [] && forall k :: 0 <= k < |s| ==> Fold(s[k]) != Fold(w[0])
    ensures forall i :: !WordAt(s, i, w)
  {
    forall i ensures !WordAt(s, i, w) {
      if 0 <= i < |s| {
        MismatchAt(s, i, w, 0);
      }
    }
  }

  /** A word does not occur at `i` if one of its letters differs there. */
  lemma MismatchAt(s: string, i: nat, w: string, k: nat)
    requires k < |w| && (i + k < |s| ==> Fold(s[i + k]) != Fold(w[k]))
    ensures !WordAt(s, i, w)
  {
  }

  /** Example: storage after a color, no condition word. */
  lemma ExampleColorStorage(s: string)
    requires s == "Gold 64GB"
    ensures AttributesOf(s) == Attributes(Some("64GB"), Some("Gold"), None)
  {
    assert s[0] == 'G' && s[1] == 'o' && s[2] == 'l' && s[3] == 'd' && s[4] == ' ';
    assert s[5] == '6' && s[6] == '4' && s[7] == 'G' && s[8] == 'B';
    assert RunEnd(s, 6, Digits) == 7;
    assert RunEnd(s, 5, Digits) == 7;
    assert RunEnd(s, 7, Whitespace) == 7;
    assert MatchAt(StoragePattern, s, 5) == Some(Match(5, 5, 9));
    assert Search(StoragePattern, s, 0) == Some(Match(5, 5, 9));
    assert s[5..9] == "64GB";
    assert Fold(s[0]) == 'g';
    assert Fold(ColorWords[0][0]) == 'b' && Fold(ColorWords[1][0]) == 'w';
    MismatchAt(s, 0, ColorWords[0], 0);
    MismatchAt(s, 0, ColorWords[1], 0);
    assert WordAt(s, 0, ColorWords[2]);
    assert MatchAt(ColorPattern, s, 0) == Some(Match(0, 0, 4));
    assert s[0..4] == "Gold";
    forall j | 0 <= j < |ConditionWords| ensures forall i :: !WordAt(s, i, ConditionWords[j]) {
      NoFirstLetter(s, ConditionWords[j]);
    }
    WordAbsent(ConditionWords, s);
  }

  /** Example: an alternative is tried at each position in pattern order, so the
      two-word color is found where the shorter `Gold` does not start. */
  lemma ExampleRoseGold(s: string)
    requires s == "Rose Gold"
    ensures AttributesOf(s).color == Some("Rose Gold")
  {
    RoseGoldAt(s);
    assert Fold(s[0]) == 'r';
    MismatchAt(s, 0, ColorWords[4], 0);
    MismatchAt(s, 0, ColorWords[3], 0);
    MismatchAt(s, 0, ColorWords[2], 0);
    MismatchAt(s, 0, ColorWords[1], 0);
    MismatchAt(s, 0, ColorWords[0], 0);
    assert FirstWord(s, 0, ColorWords, 5) == Some(5);
    assert FirstWord(s, 0, ColorWords, 3) == Some(5);
    assert FirstWord(s, 0, ColorWords, 1) == Some(5);
    assert FirstWord(s, 0, ColorWords, 0) == Some(5);
    assert MatchAt(ColorPattern, s, 0) == Some(Match(0, 0, 9));
    assert s[0..9] == s;
  }

  lemma RoseGoldAt(s: string)
    requires s == "Rose Gold"
    ensures WordAt(s, 0, ColorWords[5])
  {
    assert ColorWords[5] == s;
  }

  /** Example: a condition word is found inside a longer word, and its value is
      the text as written, not the pattern's spelling. */
  lemma ExampleRenewed(s: string)
    requires s == "Renewed"
    ensures AttributesOf(s).condition == Some("new")
  {
    assert s[0] == 'R' && s[1] == 'e' && s[2] == 'n' && s[3] == 'e' && s[4] == 'w';
    MismatchAt(s, 0, ConditionWords[0], 0);
    MismatchAt(s, 0, ConditionWords[1], 0);
    MismatchAt(s, 0, ConditionWords[2], 2);
    MismatchAt(s, 0, ConditionWords[3], 0);
    assert MatchAt(ConditionPattern, s, 0).None?;
    forall j | 0 <= j < 4 ensures !WordAt(s, 1, ConditionWords[j]) {
      MismatchAt(s, 1, ConditionWords[j], 0);
    }
    assert MatchAt(ConditionPattern, s, 1).None?;
    assert WordAt(s, 2, ConditionWords[0]);
    assert MatchAt(ConditionPattern, s, 2) == Some(Match(2, 2, 5));
    assert s[2..5] == "new";
  }

  /** Example: digits followed by something other than GB or TB are no storage. */
  lemma ExampleNoStorage(s: string)
    requires s == "13 Pro"
    ensures AttributesOf(s).storage == None
  {
    assert s[0] == '1' && s[1] == '3' && s[2] == ' ' && s[3] == 'P';
    assert RunEnd(s, 1, Digits) == 2 && RunEnd(s, 0, Digits) == 2;
    assert RunEnd(s, 3, Whitespace) == 3 && RunEnd(s, 2, Whitespace) == 3;
    assert !UnitAt(s, 3);
    assert MatchAt(StoragePattern, s, 0).None?;
    assert MatchAt(StoragePattern, s, 1).None?;
  }
}
