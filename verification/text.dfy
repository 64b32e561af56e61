/** Characters and strings as the original program sees them.

    Python's `\d`, `\w` and `str.upper` are modelled over ASCII; `\s` (and
    `str.strip`, which uses the same notion of whitespace) is modelled over
    its full, finite Unicode set. Strings are `seq<char>`. */
module Text {

  /** One byte of a byte string. */
  type byte = b: int | 0 <= b < 256

  // ---------------------------------------------------------------------
  // Character classes
  // ---------------------------------------------------------------------

  /** `\d` restricted to ASCII. */
  predicate IsDigit(c: char) {
    '0' <= c <= '9'
  }

  predicate IsAsciiLetter(c: char) {
    'a' <= c <= 'z' || 'A' <= c <= 'Z'
  }

  /** `\w` restricted to ASCII: letters, digits and the underscore. */
  predicate IsWordChar(c: char) {
    IsDigit(c) || IsAsciiLetter(c) || c == '_'
  }

  /** `\s` for a `str` pattern, which is also what `str.strip()` removes:
      the characters Python's `str.isspace` accepts. */
  predicate IsSpace(c: char) {
    || '\U{9}' <= c <= '\U{d}'
    || '\U{1c}' <= c <= '\U{20}'
    || c == '\U{85}' || c == '\U{a0}' || c == '\U{1680}'
    || '\U{2000}' <= c <= '\U{200a}'
    || c == '\U{2028}' || c == '\U{2029}' || c == '\U{202f}'
    || c == '\U{205f}' || c == '\U{3000}'
  }

  /** `str.upper` on one character, restricted to ASCII letters. */
  function UpperChar(c: char): char {
    if 'a' <= c <= 'z' then (c as int - 32) as char else c
  }

  /** `str.upper` on a string. */
  function Upper(s: string): (r: string)
    ensures |r| == |s|
  {
    seq(|s|, k requires 0 <= k < |s| => UpperChar(s[k]))
  }

  // ---------------------------------------------------------------------
  // Digit runs and decimal numbers
  // ---------------------------------------------------------------------

  /** Every character of `s[i..j]` is a digit. */
  predicate DigitsBetween(s: string, i: nat, j: nat)
    requires i <= j <= |s|
  {
    forall k | i <= k < j :: IsDigit(s[k])
  }

  predicate AllDigits(s: string) {
    DigitsBetween(s, 0, |s|)
  }

  /** The end of the longest run of digits starting at `i`: what a greedy
      `\d+` (or `\d*`) stops at. */
  function DigitRunEnd(s: string, i: nat): (r: nat)
    requires i <= |s|
    ensures i <= r <= |s|
    ensures DigitsBetween(s, i, r)
    ensures r == |s| || !IsDigit(s[r])
    decreases |s| - i
  {
    if i < |s| && IsDigit(s[i]) then DigitRunEnd(s, i + 1) else i
  }

  /** A run of digits that cannot be extended is the greedy run. */
  lemma DigitRunEndUnique(s: string, i: nat, j: nat)
    requires i <= j <= |s|
    requires DigitsBetween(s, i, j)
    requires j == |s| || !IsDigit(s[j])
    ensures j == DigitRunEnd(s, i)
  {
  }

  function DigitValue(c: char): nat
    requires IsDigit(c)
  {
    c as int - '0' as int
  }

  function DigitChar(d: nat): (c: char)
    requires d < 10
    ensures IsDigit(c) && DigitValue(c) == d
  {
    ('0' as int + d) as char
  }

  /** Python's `int(s)` on a string of ASCII digits. */
  function DigitsValue(s: string): nat
    requires AllDigits(s)
  {
    if |s| == 0 then 0
    else
      assert AllDigits(s[..|s| - 1]);
      DigitsValue(s[..|s| - 1]) * 10 + DigitValue(s[|s| - 1])
  }

  /** A string of `n` decimal digits is worth less than `10^n`. */
  lemma DigitsValueBound(s: string)
    requires AllDigits(s)
    ensures DigitsValue(s) < Pow10(|s|)
  {
    if |s| > 0 {
      var init := s[..|s| - 1];
      assert AllDigits(init);
      DigitsValueBound(init);
    }
  }

  function Pow10(n: nat): (r: nat)
    ensures r >= 1
  {
    if n == 0 then 1 else 10 * Pow10(n - 1)
  }

  /** Python's `str(n)` (and `f"{n}"`) for a non-negative integer. */
  function NatToString(n: nat): (r: string)
    ensures |r| >= 1
    ensures AllDigits(r)
  {
    if n < 10 then [DigitChar(n)]
    else NatToString(n / 10) + [DigitChar(n % 10)]
  }

  /** `int(str(n)) == n`: the decimal rendering loses nothing. */
  lemma {:induction false} NatToStringRoundTrip(n: nat)
    ensures DigitsValue(NatToString(n)) == n
  {
    var r := NatToString(n);
    if n >= 10 {
      assert r[..|r| - 1] == NatToString(n / 10);
      NatToStringRoundTrip(n / 10);
    } else {
      assert r[..|r| - 1] == [];
    }
  }

  // ---------------------------------------------------------------------
  // str.strip()
  // ---------------------------------------------------------------------

  /** The index of the first non-whitespace character at or after `i`. */
  function SkipSpaces(s: string, i: nat): (r: nat)
    requires i <= |s|
    ensures i <= r <= |s|
    ensures forall k :: i <= k < r ==> IsSpace(s[k])
    ensures r == |s| || !IsSpace(s[r])
    decreases |s| - i
  {
    if i < |s| && IsSpace(s[i]) then SkipSpaces(s, i + 1) else i
  }

  /** The end of `s[lo..j]` once its trailing whitespace is dropped. */
  function TrimEnd(s: string, lo: nat, j: nat): (r: nat)
    requires lo <= j <= |s|
    ensures lo <= r <= j
    ensures forall k :: r <= k < j ==> IsSpace(s[k])
    ensures r == lo || !IsSpace(s[r - 1])
    decreases j - lo
  {
    if lo < j && IsSpace(s[j - 1]) then TrimEnd(s, lo, j - 1) else j
  }

  /** `r` is `s` with all-whitespace text before position `i` and after
      `r` removed. */
  ghost predicate StripsTo(s: string, i: nat, r: string) {
    && i + |r| <= |s|
    && r == s[i..i + |r|]
    && (forall k :: 0 <= k < i ==> IsSpace(s[k]))
    && (forall k :: i + |r| <= k < |s| ==> IsSpace(s[k]))
  }

  /** Python's `s.strip()`. */
  function Strip(s: string): (r: string)
    ensures exists i :: StripsTo(s, i, r)
    ensures r != [] ==> !IsSpace(r[0]) && !IsSpace(r[|r| - 1])
  {
    var i := SkipSpaces(s, 0);
    var j := TrimEnd(s, i, |s|);
    assert StripsTo(s, i, s[i..j]);
    s[i..j]
  }

  // ---------------------------------------------------------------------
  // in, join, split and replace
  // ---------------------------------------------------------------------

  /** `pat` occurs in `s` starting at index `i`. */
  predicate OccursAt(s: string, pat: string, i: int) {
    0 <= i && i + |pat| <= |s| && s[i..i + |pat|] == pat
  }

  /** Python's `pat in s`. */
  predicate Contains(s: string, pat: string) {
    exists i | 0 <= i <= |s| :: OccursAt(s, pat, i)
  }

  /** Python's `sep.join(parts)`. */
  function Join(parts: seq<string>, sep: string): string {
    if |parts| == 0 then ""
    else if |parts| == 1 then parts[0]
    else parts[0] + sep + Join(parts[1..], sep)
  }

  /** The first part is a prefix of the joined string. */
  lemma {:induction false} JoinStartsWithFirst(parts: seq<string>, sep: string)
    requires |parts| >= 1
    ensures parts[0] <= Join(parts, sep)
  {
  }

  /** Prepending a character to the first part prepends it to the join. */
  lemma JoinConsChar(c: char, parts: seq<string>, sep: string)
    requires |parts| >= 1
    ensures Join([[c] + parts[0]] + parts[1..], sep) == [c] + Join(parts, sep)
  {
    var ps := [[c] + parts[0]] + parts[1..];
    assert ps[1..] == parts[1..];
  }

  /** Python's `s.split(pat)`: the pieces between the leftmost
      non-overlapping occurrences of `pat`. Joining them back with `pat`
      gives `s`, and no piece contains `pat`. */
  function SplitOn(s: string, pat: string): (parts: seq<string>)
    requires |pat| > 0
    ensures |parts| >= 1
    ensures Join(parts, pat) == s
    ensures forall k :: 0 <= k < |parts| ==> !Contains(parts[k], pat)
    decreases |s|
  {
    if |s| < |pat| then
      assert !Contains(s, pat);
      [s]
    else if s[..|pat|] == pat then
      var rest := SplitOn(s[|pat|..], pat);
      assert !Contains("", pat);
      var parts := [""] + rest;
      assert parts[1..] == rest;
      assert s == pat + s[|pat|..];
      parts
    else
      var rest := SplitOn(s[1..], pat);
      var first := [s[0]] + rest[0];
      JoinConsChar(s[0], rest, pat);
      assert s == [s[0]] + s[1..];
      assert !Contains(first, pat) by {
        JoinStartsWithFirst(rest, pat);
        assert first <= s;
        if |pat| <= |first| {
          assert first[..|pat|] == s[..|pat|];
        }
        forall i | 1 <= i <= |first|
          ensures !OccursAt(first, pat, i)
        {
          assert !OccursAt(rest[0], pat, i - 1);
          if i + |pat| <= |first| {
            assert first[i..i + |pat|] == rest[0][i - 1..i - 1 + |pat|];
          }
        }
      }
      var parts := [first] + rest[1..];
      assert forall k :: 1 <= k < |parts| ==> parts[k] == rest[k];
      parts
  }

  /** Python's `s.replace(pat, rep)`: scanning left to right, every
      occurrence of `pat` that does not overlap an earlier one becomes
      `rep`. */
  function ReplaceAll(s: string, pat: string, rep: string): (r: string)
    requires |pat| > 0
    ensures rep == pat ==> r == s
    ensures !Contains(s, pat) ==> r == s
    decreases |s|
  {
    if |s| < |pat| then s
    else if s[..|pat|] == pat then
      assert OccursAt(s, pat, 0);
      rep + ReplaceAll(s[|pat|..], pat, rep)
    else
      assert Contains(s[1..], pat) ==> Contains(s, pat) by {
        if Contains(s[1..], pat) {
          var i :| 0 <= i <= |s[1..]| && OccursAt(s[1..], pat, i);
          assert s[i + 1..i + 1 + |pat|] == s[1..][i..i + |pat|];
          assert OccursAt(s, pat, i + 1);
        }
      }
      [s[0]] + ReplaceAll(s[1..], pat, rep)
  }

  /** `s.replace(pat, rep) == rep.join(s.split(pat))`: replacing is
      splitting at the occurrences and joining with the replacement. */
  lemma {:induction false} ReplaceAllIsSplitJoin(s: string, pat: string, rep: string)
    requires |pat| > 0
    ensures ReplaceAll(s, pat, rep) == Join(SplitOn(s, pat), rep)
    decreases |s|
  {
    if |s| < |pat| {
    } else if s[..|pat|] == pat {
      ReplaceAllIsSplitJoin(s[|pat|..], pat, rep);
      var parts := [""] + SplitOn(s[|pat|..], pat);
      assert parts[1..] == SplitOn(s[|pat|..], pat);
    } else {
      ReplaceAllIsSplitJoin(s[1..], pat, rep);
      JoinConsChar(s[0], SplitOn(s[1..], pat), rep);
    }
  }
}
