/** Characters and strings as Python's `str` methods and `re` see them.
    Strings are sequences of Unicode scalar values (`seq<char>`). */
module Text {

  datatype Option<+T> = None | Some(value: T)

  /** `\d` restricted to the ASCII digits. */
  predicate IsDigit(c: char) {
    '0' <= c <= '9'
  }

  /** `str.isspace()`, which is also the set `\s` matches in a `str` pattern. */
  predicate IsSpace(c: char) {
    var n := c as int;
    n == 0x20 || 0x09 <= n <= 0x0D || 0x1C <= n <= 0x1F || n == 0x85 || n == 0xA0 || n == 0x1680
    || 0x2000 <= n <= 0x200A || n == 0x2028 || n == 0x2029 || n == 0x202F || n == 0x205F || n == 0x3000
  }

  predicate IsAsciiUpper(c: char) {
    'A' <= c <= 'Z'
  }

  /** `str.lower()` on one character, for every character whose lower case is ASCII:
      A-Z and the Kelvin sign U+212A. Every other character is left as it is, which
      keeps a comparison of the result with an ASCII word exact. */
  function LowerChar(c: char): (r: char)
    ensures !IsAsciiUpper(r)
    ensures 'a' <= r <= 'z' ==> IsAsciiUpper(c) || c == r || c == '\U{212A}'
  {
    if IsAsciiUpper(c) then (c as int + 32) as char
    else if c == '\U{212A}' then 'k'
    else c
  }

  function Lower(s: string): (r: string)
    ensures |r| == |s|
  {
    seq(|s|, i requires 0 <= i < |s| => LowerChar(s[i]))
  }

  /** The case folding `re.IGNORECASE` applies before comparing a character with an
      ASCII character of a pattern: simple lower case, plus the equivalences of
      dotless i (U+0131) with i and of long s (U+017F) with s. */
  function Fold(c: char): char {
    if IsAsciiUpper(c) then (c as int + 32) as char
    else if c == '\U{212A}' then 'k'
    else if c == '\U{0130}' || c == '\U{0131}' then 'i'
    else if c == '\U{017F}' then 's'
    else c
  }

  /** Two strings equal under `re.IGNORECASE`. */
  predicate EqualsIgnoreCase(u: string, w: string) {
    |u| == |w| && forall k :: 0 <= k < |u| ==> Fold(u[k]) == Fold(w[k])
  }

  /** Index of the first non-whitespace character at or after `i`. */
  function StripStart(s: string, i: nat): (r: nat)
    requires i <= |s|
    ensures i <= r <= |s|
    ensures forall k :: i <= k < r ==> IsSpace(s[k])
    ensures r < |s| ==> !IsSpace(s[r])
    decreases |s| - i
  {
    if i < |s| && IsSpace(s[i]) then StripStart(s, i + 1) else i
  }

  /** End of `s[lo..j]` once its trailing whitespace is dropped. */
  function StripEnd(s: string, lo: nat, j: nat): (r: nat)
    requires lo <= j <= |s|
    ensures lo <= r <= j
    ensures forall k :: r <= k < j ==> IsSpace(s[k])
    ensures r > lo ==> !IsSpace(s[r - 1])
    decreases j
  {
    if j > lo && IsSpace(s[j - 1]) then StripEnd(s, lo, j - 1) else j
  }

  /** `str.strip()`: `s` without its leading and trailing whitespace. */
  function Strip(s: string): (r: string)
    ensures |r| <= |s|
    ensures |r| > 0 ==> !IsSpace(r[0]) && !IsSpace(r[|r| - 1])
    ensures (forall k :: 0 <= k < |s| ==> IsSpace(s[k])) <==> r == ""
    ensures exists a, b :: && 0 <= a <= b <= |s| && r == s[a..b]
                           && (forall k :: 0 <= k < a ==> IsSpace(s[k]))
                           && (forall k :: b <= k < |s| ==> IsSpace(s[k]))
  {
    var a := StripStart(s, 0);
    var b := StripEnd(s, a, |s|);
    s[a..b]
  }

  /** Stripping twice is stripping once. */
  lemma StripIdempotent(s: string)
    ensures Strip(Strip(s)) == Strip(s)
  {
    var r := Strip(s);
    if r != "" {
      assert StripStart(r, 0) == 0;
      assert StripEnd(r, 0, |r|) == |r|;
    }
  }

  /** Text without space at either end is its own strip. */
  lemma StripUnchanged(s: string)
    requires s != "" && !IsSpace(s[0]) && !IsSpace(s[|s| - 1])
    ensures Strip(s) == s
  {
    assert StripStart(s, 0) == 0;
  }

  /** `sep.join(terms)` for a one-character separator. */
  function Join(terms: seq<string>, sep: char): string
    decreases |terms|
  {
    if |terms| == 0 then ""
    else if |terms| == 1 then terms[0]
    else terms[0] + [sep] + Join(terms[1..], sep)
  }

  /** `s.replace(a, b)` for one-character `a` and `b`. */
  function Replace(s: string, a: char, b: char): string {
    seq(|s|, i requires 0 <= i < |s| => if s[i] == a then b else s[i])
  }

  /** `Replace` applied to every term. */
  function ReplaceEach(terms: seq<string>, a: char, b: char): seq<string> {
    seq(|terms|, i requires 0 <= i < |terms| => Replace(terms[i], a, b))
  }

  lemma ReplaceAppend(x: string, y: string, a: char, b: char)
    ensures Replace(x + y, a, b) == Replace(x, a, b) + Replace(y, a, b)
  {
    assert forall i :: 0 <= i < |x| + |y| ==> Replace(x + y, a, b)[i] == (Replace(x, a, b) + Replace(y, a, b))[i];
  }

  /** Replacing after joining is joining the replaced terms with the replaced separator. */
  lemma {:induction false} ReplaceJoin(terms: seq<string>, sep: char, a: char, b: char)
    ensures Replace(Join(terms, sep), a, b) == Join(ReplaceEach(terms, a, b), if sep == a then b else sep)
    decreases |terms|
  {
    var sep' := if sep == a then b else sep;
    if |terms| > 1 {
      calc {
        Replace(Join(terms, sep), a, b);
        Replace(terms[0] + [sep] + Join(terms[1..], sep), a, b);
        { ReplaceAppend(terms[0] + [sep], Join(terms[1..], sep), a, b);
          ReplaceAppend(terms[0], [sep], a, b); }
        Replace(terms[0], a, b) + Replace([sep], a, b) + Replace(Join(terms[1..], sep), a, b);
        { ReplaceJoin(terms[1..], sep, a, b);
          assert ReplaceEach(terms[1..], a, b) == ReplaceEach(terms, a, b)[1..]; }
        Replace(terms[0], a, b) + [sep'] + Join(ReplaceEach(terms, a, b)[1..], sep');
        Join(ReplaceEach(terms, a, b), sep');
      }
    }
  }

  /** After replacing `a` by another character, no `a` is left. */
  lemma ReplaceRemoves(s: string, a: char, b: char)
    requires a != b
    ensures a !in Replace(s, a, b)
  {
  }
}
