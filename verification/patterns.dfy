/** The four regular expressions of `DocumentExtractor` and Python's
    `re.findall` over them.

    Each pattern is described twice: `IsMatch` reads the regular expression
    literally (which text between which positions it accepts, with `\b`
    spelled out as `Boundary`), and `MatchAt` is the scanner that decides,
    at one position, whether and where the engine's greedy match ends.
    `FindAll` is the findall loop: try at the current position, on a match
    emit it and resume at its end, otherwise advance by one. Its contract
    says it returns exactly the matches, left to right. */
module Patterns {
  import opened Wrappers
  import opened Text

  /** The regular expressions the extractor uses. */
  datatype Pattern =
      /** `\bAARON\d{8,}\b`, case-sensitive (extraction_utils.py line 16). */
    | BodyBates
      /** `AARON\d{7,}` with `re.IGNORECASE` (line 45). */
    | FilenameBates
      /** `\b\d{5,6}\b` (line 69). */
    | RepairOrder
      /** `FOWS?(\d{5})` (line 91), applied to already upper-cased text. */
    | FowMarker

  /** A match occupying `s[start..end]`. */
  datatype Span = Span(start: nat, end: nat)

  const BatesPrefix: string := "AARON"
  const FowPrefix: string := "FOW"

  /** `\b` at position `k`: a word character on exactly one side. */
  predicate Boundary(s: string, k: nat)
    requires k <= |s|
  {
    (k > 0 && IsWordChar(s[k - 1])) != (k < |s| && IsWordChar(s[k]))
  }

  /** The literal `w` occurs at position `i` of `s`. */
  predicate LiteralAt(s: string, i: nat, w: string) {
    i + |w| <= |s| && forall k | 0 <= k < |w| :: s[i + k] == w[k]
  }

  /** The literal `w` (upper-case) occurs at `i`, ignoring ASCII case. */
  predicate LiteralAtIgnoringCase(s: string, i: nat, w: string) {
    i + |w| <= |s| && forall k | 0 <= k < |w| :: UpperChar(s[i + k]) == w[k]
  }

  /** The regular expression `p` matches exactly `s[i..j]` when the search
      is tried at position `i`. For `FilenameBates` the last conjunct is the
      greediness of `\d{7,}`; for the other patterns the match end is forced
      by the pattern itself (see `MatchAt`). */
  predicate IsMatch(p: Pattern, s: string, i: nat, j: nat) {
    && i < j <= |s|
    && match p
       case BodyBates =>
         && Boundary(s, i)
         && LiteralAt(s, i, BatesPrefix)
         && j - (i + 5) >= 8
         && DigitsBetween(s, i + 5, j)
         && Boundary(s, j)
       case FilenameBates =>
         && LiteralAtIgnoringCase(s, i, BatesPrefix)
         && j - (i + 5) >= 7
         && DigitsBetween(s, i + 5, j)
         && (j == |s| || !IsDigit(s[j]))
       case RepairOrder =>
         && Boundary(s, i)
         && 5 <= j - i <= 6
         && DigitsBetween(s, i, j)
         && Boundary(s, j)
       case FowMarker =>
         && LiteralAt(s, i, FowPrefix)
         && ((j == i + 8 && DigitsBetween(s, i + 3, j))
             || (j == i + 9 && s[i + 3] == 'S' && DigitsBetween(s, i + 4, j)))
  }

  /** The text `findall` reports for a match: the whole match, except for
      `FowMarker`, whose single group is the five digits at its end. */
  function Group(p: Pattern, s: string, m: Span): string
    requires m.start <= m.end <= |s|
  {
    if p == FowMarker && m.end >= m.start + 5 then s[m.end - 5..m.end]
    else s[m.start..m.end]
  }

  /** The scanner for one position: where the greedy match of `p` tried at
      `i` ends, if it matches at all. It is the only match starting at `i`. */
  function MatchAt(p: Pattern, s: string, i: nat): (r: Option<nat>)
    requires i <= |s|
    ensures r.Some? ==> IsMatch(p, s, i, r.value)
    ensures forall j: nat :: IsMatch(p, s, i, j) ==> r == Some(j)
  {
    match p
    case BodyBates =>
      if Boundary(s, i) && LiteralAt(s, i, BatesPrefix) then
        var j := DigitRunEnd(s, i + 5);
        // `\d{8,}` is greedy; giving digits back cannot help, because the
        // closing `\b` would then sit between two digits.
        if j - (i + 5) >= 8 && Boundary(s, j) then Some(j) else None
      else None
    case FilenameBates =>
      if LiteralAtIgnoringCase(s, i, BatesPrefix) then
        var j := DigitRunEnd(s, i + 5);
        if j - (i + 5) >= 7 then Some(j) else None
      else None
    case RepairOrder =>
      if Boundary(s, i) then
        var j := DigitRunEnd(s, i);
        // A run of seven or more digits fails: both `\d{6}` and `\d{5}`
        // would leave a digit after them, so no `\b` follows.
        if 5 <= j - i <= 6 && Boundary(s, j) then Some(j) else None
      else None
    case FowMarker =>
      if LiteralAt(s, i, FowPrefix) then
        // `S?` first tries to take the `S`; without it the next character
        // is `S` again and cannot start `\d{5}`.
        if i + 9 <= |s| && s[i + 3] == 'S' && DigitsBetween(s, i + 4, i + 9) then Some(i + 9)
        else if i + 8 <= |s| && DigitsBetween(s, i + 3, i + 8) then Some(i + 8)
        else None
      else None
  }

  /** Two matches of the same pattern never overlap: a match cannot start
      strictly inside another. */
  lemma MatchesDisjoint(p: Pattern, s: string, i: nat, j: nat, k: nat, l: nat)
    requires IsMatch(p, s, i, j) && IsMatch(p, s, k, l)
    requires i < k
    ensures j <= k
  {
    match p
    case BodyBates =>
      // Every character of a match is a word character, so no `\b` falls
      // strictly inside one.
      forall m | i <= m < j ensures IsWordChar(s[m]) {
        if m < i + 5 {
          assert s[i + (m - i)] == BatesPrefix[m - i];
        }
      }
      assert s[k + 0] == BatesPrefix[0];
    case FilenameBates =>
      // No position strictly inside a match reads "AA" ignoring case.
      forall m | i < m < j && m + 1 < |s|
        ensures !(UpperChar(s[m]) == 'A' && UpperChar(s[m + 1]) == 'A')
      {
        if m == i + 1 {
          assert UpperChar(s[i + 2]) == BatesPrefix[2];
        } else if m < i + 5 {
          assert UpperChar(s[i + (m - i)]) == BatesPrefix[m - i];
        } else {
          assert IsDigit(s[m]);
        }
      }
      assert UpperChar(s[k + 0]) == BatesPrefix[0];
      assert UpperChar(s[k + 1]) == BatesPrefix[1];
    case RepairOrder =>
      assert IsDigit(s[k]);
    case FowMarker =>
      // No position strictly inside a match holds an `F`.
      forall m | i < m < j ensures s[m] != 'F' {
        if m < i + 3 {
          assert s[i + (m - i)] == FowPrefix[m - i];
        } else if m > i + 3 || j == i + 8 {
          assert IsDigit(s[m]);
        }
      }
      assert s[k + 0] == FowPrefix[0];
  }

  /** `spans` are exactly the matches of `p` in `s` that start at or after
      `pos`, in left-to-right order. */
  ghost predicate MatchListFrom(p: Pattern, s: string, pos: nat, spans: seq<Span>) {
    && (forall k :: 0 <= k < |spans| ==>
          pos <= spans[k].start && IsMatch(p, s, spans[k].start, spans[k].end))
    && (forall k, m :: 0 <= k < m < |spans| ==> spans[k].end <= spans[m].start)
    && (forall i, j :: pos <= i && IsMatch(p, s, i, j) ==> Span(i, j) in spans)
  }

  /** `spans` are all the matches of `p` in `s`, left to right. */
  ghost predicate MatchList(p: Pattern, s: string, spans: seq<Span>) {
    MatchListFrom(p, s, 0, spans)
  }

  /** Python's `re.findall` scanning loop, from position `pos` on. */
  function FindAll(p: Pattern, s: string, pos: nat): (r: seq<Span>)
    requires pos <= |s|
    ensures MatchListFrom(p, s, pos, r)
    decreases |s| - pos
  {
    if pos == |s| then []
    else
      match MatchAt(p, s, pos)
      case Some(e) =>
        var rest := FindAll(p, s, e);
        EmitMatch(p, s, pos, e, rest);
        [Span(pos, e)] + rest
      case None =>
        var rest := FindAll(p, s, pos + 1);
        SkipPosition(p, s, pos, rest);
        rest
  }

  /** A match at `pos`, followed by the matches after it, is the list of
      matches from `pos` on: none starts inside it. */
  lemma EmitMatch(p: Pattern, s: string, pos: nat, e: nat, rest: seq<Span>)
    requires pos <= |s| && MatchAt(p, s, pos) == Some(e)
    requires MatchListFrom(p, s, e, rest)
    ensures MatchListFrom(p, s, pos, [Span(pos, e)] + rest)
  {
    var r := [Span(pos, e)] + rest;
    EmitMatchSound(p, s, pos, e, rest);
    forall i, j | pos <= i && IsMatch(p, s, i, j) ensures Span(i, j) in r {
      if pos < i < e {
        MatchesDisjoint(p, s, pos, e, i, j);
      }
    }
  }

  /** The spans of the extended list are matches, in order. */
  lemma EmitMatchSound(p: Pattern, s: string, pos: nat, e: nat, rest: seq<Span>)
    requires pos <= |s| && MatchAt(p, s, pos) == Some(e)
    requires MatchListFrom(p, s, e, rest)
    ensures var r := [Span(pos, e)] + rest;
      && (forall k :: 0 <= k < |r| ==> pos <= r[k].start && IsMatch(p, s, r[k].start, r[k].end))
      && (forall k, m :: 0 <= k < m < |r| ==> r[k].end <= r[m].start)
  {
    var r := [Span(pos, e)] + rest;
    forall k | 0 <= k < |r| ensures pos <= r[k].start && IsMatch(p, s, r[k].start, r[k].end) {
      if k > 0 {
        assert r[k] == rest[k - 1];
      }
    }
    forall k, m | 0 <= k < m < |r| ensures r[k].end <= r[m].start {
      assert r[m] == rest[m - 1];
      if k > 0 {
        assert r[k] == rest[k - 1];
      }
    }
  }

  /** Without a match at `pos`, the matches from `pos` on are those from
      `pos + 1` on. */
  lemma SkipPosition(p: Pattern, s: string, pos: nat, rest: seq<Span>)
    requires pos < |s| && MatchAt(p, s, pos).None?
    requires MatchListFrom(p, s, pos + 1, rest)
    ensures MatchListFrom(p, s, pos, rest)
  {
  }

  /** Every span lies inside `s`. */
  predicate SpansWithin(s: string, spans: seq<Span>) {
    forall k | 0 <= k < |spans| :: spans[k].start <= spans[k].end <= |s|
  }

  lemma MatchListWithin(p: Pattern, s: string, pos: nat, spans: seq<Span>)
    requires MatchListFrom(p, s, pos, spans)
    ensures SpansWithin(s, spans)
  {
  }

  /** The texts `findall` reports for the given matches. */
  function Groups(p: Pattern, s: string, spans: seq<Span>): (r: seq<string>)
    requires SpansWithin(s, spans)
    ensures |r| == |spans|
  {
    seq(|spans|, k requires 0 <= k < |spans| => Group(p, s, spans[k]))
  }

  /** The matches determine the list: there is only one left-to-right list
      of all the matches, so `MatchList` pins `findall`'s result down. */
  lemma MatchListUnique(p: Pattern, s: string, pos: nat, a: seq<Span>, b: seq<Span>)
    requires MatchListFrom(p, s, pos, a) && MatchListFrom(p, s, pos, b)
    ensures a == b
  {
    MatchListSorted(p, s, pos, a);
    MatchListSorted(p, s, pos, b);
    forall x | x in a ensures x in b {
      assert IsMatch(p, s, x.start, x.end);
      assert Span(x.start, x.end) in b;
    }
    forall x | x in b ensures x in a {
      assert IsMatch(p, s, x.start, x.end);
      assert Span(x.start, x.end) in a;
    }
    SortedSameElements(a, b);
  }

  /** The spans start at strictly increasing positions. */
  predicate SortedByStart(a: seq<Span>) {
    forall k, m :: 0 <= k < m < |a| ==> a[k].start < a[m].start
  }

  /** A match list is sorted by start position. */
  lemma MatchListSorted(p: Pattern, s: string, pos: nat, a: seq<Span>)
    requires MatchListFrom(p, s, pos, a)
    ensures SortedByStart(a)
  {
    forall k, m | 0 <= k < m < |a| ensures a[k].start < a[m].start {
      assert IsMatch(p, s, a[k].start, a[k].end);
    }
  }

  /** Two lists sorted by start position that hold the same spans are the
      same list. */
  lemma {:induction false} SortedSameElements(a: seq<Span>, b: seq<Span>)
    requires SortedByStart(a) && SortedByStart(b)
    requires forall x :: x in a <==> x in b
    ensures a == b
    decreases |a|
  {
    if |a| > 0 {
      assert a[0] in b;
      SortedSameFirst(a, b);
      SortedSameRest(a, b);
      SortedSameElements(a[1..], b[1..]);
      assert a == [a[0]] + a[1..];
      assert b == [b[0]] + b[1..];
    } else {
      HeadIsMember(b);
    }
  }

  lemma HeadIsMember(b: seq<Span>)
    ensures |b| > 0 ==> b[0] in b
  {
  }

  /** The first span of a sorted list starts no later than any of its
      spans. */
  lemma SortedFirstIsLeast(a: seq<Span>, z: Span)
    requires SortedByStart(a) && z in a
    ensures a[0].start <= z.start
    ensures a[0].start == z.start ==> a[0] == z
  {
    var x :| 0 <= x < |a| && a[x] == z;
    assert x == 0 || a[0].start < a[x].start;
  }

  lemma SortedSameFirst(a: seq<Span>, b: seq<Span>)
    requires SortedByStart(a) && SortedByStart(b)
    requires forall x :: x in a <==> x in b
    requires |a| > 0 && |b| > 0
    ensures a[0] == b[0]
  {
    assert a[0] in b && b[0] in a;
    SortedFirstIsLeast(a, b[0]);
    SortedFirstIsLeast(b, a[0]);
  }

  /** With the same first span, the rests hold the same spans. */
  lemma SortedSameRest(a: seq<Span>, b: seq<Span>)
    requires SortedByStart(a) && SortedByStart(b)
    requires forall x :: x in a <==> x in b
    requires |a| > 0 && |b| > 0 && a[0] == b[0]
    ensures SortedByStart(a[1..]) && SortedByStart(b[1..])
    ensures forall x :: x in a[1..] <==> x in b[1..]
  {
    forall z | z in a[1..] ensures z in b[1..] {
      RestMember(a, b, z);
    }
    forall z | z in b[1..] ensures z in a[1..] {
      RestMember(b, a, z);
    }
  }

  lemma RestMember(a: seq<Span>, b: seq<Span>, z: Span)
    requires SortedByStart(a) && SortedByStart(b)
    requires forall x :: x in a <==> x in b
    requires |a| > 0 && |b| > 0 && a[0] == b[0]
    requires z in a[1..]
    ensures z in b[1..]
  {
    var i :| 0 <= i < |a[1..]| && a[1..][i] == z;
    assert a[i + 1] == z;
    assert a[0].start < z.start;
    assert z in b;
    var j :| 0 <= j < |b| && b[j] == z;
    assert b[1..][j - 1] == z;
  }
}
