/** The identifier matchers of `DocumentExtractor`
    (utils/extraction_utils.py): AARON (Bates) codes in page text and in
    file names, repair-order numbers in page text, and `FOW` repair-order
    numbers in whole plain-text files. */
module DocumentExtractor {
  import opened Wrappers
  import opened Text
  import opened Patterns

  /** An argument the source expects to be a `str`: either a string or any
      other Python value. */
  datatype Value = Str(text: string) | NotAString

  const NotStringMessage: string := "Input must be a string."
  const NotStringTextMessage: string := "Input text must be a string."

  /** `x` is `AARON` followed by at least `minDigits` ASCII digits. */
  predicate IsAaronCode(x: string, minDigits: nat) {
    |x| >= 5 + minDigits && x[..5] == BatesPrefix && AllDigits(x[5..])
  }

  /** `x` is a run of five or six ASCII digits. */
  predicate IsRepairOrderNumber(x: string) {
    5 <= |x| <= 6 && AllDigits(x)
  }

  /** Upper-cases every string of a list. */
  function UpperAll(xs: seq<string>): (r: seq<string>)
    ensures |r| == |xs|
  {
    seq(|xs|, k requires 0 <= k < |xs| => Upper(xs[k]))
  }

  // ---------------------------------------------------------------------
  // extract_aaron_code
  // ---------------------------------------------------------------------

  /** The index of the last `c` in `s`, if any. */
  function LastIndex(s: string, c: char): (r: Option<nat>)
    ensures r.None? <==> c !in s
    ensures r.Some? ==> r.value < |s| && s[r.value] == c && c !in s[r.value + 1..]
    decreases |s|
  {
    if |s| == 0 then None
    else if s[|s| - 1] == c then
      assert s[|s|..] == [];
      Some(|s| - 1)
    else
      var r := LastIndex(s[..|s| - 1], c);
      assert s == s[..|s| - 1] + [s[|s| - 1]];
      if r.Some? then
        assert s[r.value + 1..] == s[..|s| - 1][r.value + 1..] + [s[|s| - 1]];
        r
      else r
  }

  /** `text.rsplit('.', 1)[0] if '.' in text else text`: the file name
      without its last extension. */
  function FileStem(name: string): (r: string)
    ensures '.' !in name ==> r == name
    ensures '.' in name ==>
      |r| < |name| && r == name[..|r|] && name[|r|] == '.' && '.' !in name[|r| + 1..]
  {
    match LastIndex(name, '.')
    case None => name
    case Some(i) => name[..i]
  }

  /** A body-mode match is already upper case. */
  lemma BodyMatchIsUpper(s: string, i: nat, j: nat)
    requires IsMatch(BodyBates, s, i, j)
    ensures Upper(s[i..j]) == s[i..j]
    ensures IsAaronCode(s[i..j], 8)
  {
    var x := s[i..j];
    forall m | 0 <= m < |x| ensures UpperChar(x[m]) == x[m] {
      if m < 5 {
        assert x[m] == s[i + m] == BatesPrefix[m];
      } else {
        assert IsDigit(s[i + m]);
      }
    }
    forall m | 0 <= m < 5 ensures x[m] == BatesPrefix[m] {
      assert x[m] == s[i + m];
    }
    assert x[..5] == BatesPrefix;
    forall m | 5 <= m < |x| ensures IsDigit(x[m]) {
      assert x[m] == s[i + m];
    }
  }

  /** A file-name match, upper-cased, is an AARON code. */
  lemma FilenameMatchUpperIsCode(s: string, i: nat, j: nat)
    requires IsMatch(FilenameBates, s, i, j)
    ensures IsAaronCode(Upper(s[i..j]), 7)
  {
    var x := Upper(s[i..j]);
    forall m | 0 <= m < 5 ensures x[m] == BatesPrefix[m] {
      assert x[m] == UpperChar(s[i + m]);
    }
    assert x[..5] == BatesPrefix;
    forall m | 5 <= m < |x| ensures IsDigit(x[m]) {
      assert x[m] == UpperChar(s[i + m]);
      assert IsDigit(s[i + m]);
    }
  }

  /** `DocumentExtractor.extract_aaron_code(text, is_filename)`.

      A non-string raises `ValueError`. In page text it returns, left to
      right, every whole word made of `AARON` and eight or more digits
      (case-sensitive; the final upper-casing changes nothing). In a file
      name it searches only the stem and returns, upper-cased, every
      `AARON` (any case) followed by the longest run of seven or more
      digits, with no word boundaries required. */
  function ExtractAaronCode(v: Value, isFilename: bool): (r: Result<seq<string>>)
    ensures r.Err? <==> v.NotAString?
    ensures r.Err? ==> r.error == ValueError(NotStringMessage)
    ensures v.Str? && !isFilename ==>
      exists spans :: MatchList(BodyBates, v.text, spans) && SpansWithin(v.text, spans)
                      && r.value == Groups(BodyBates, v.text, spans)
    ensures v.Str? && isFilename ==>
      exists spans :: MatchList(FilenameBates, FileStem(v.text), spans)
                      && SpansWithin(FileStem(v.text), spans)
                      && r.value == UpperAll(Groups(FilenameBates, FileStem(v.text), spans))
    ensures r.Ok? ==>
      forall k :: 0 <= k < |r.value| ==> IsAaronCode(r.value[k], if isFilename then 7 else 8)
  {
    match v
    case NotAString => Err(ValueError(NotStringMessage))
    case Str(text) =>
      if isFilename then
        var stem := FileStem(text);
        var spans := FindAll(FilenameBates, stem, 0);
        MatchListWithin(FilenameBates, stem, 0, spans);
        var found := Groups(FilenameBates, stem, spans);
        forall k | 0 <= k < |spans| ensures IsAaronCode(UpperAll(found)[k], 7) {
          FilenameMatchUpperIsCode(stem, spans[k].start, spans[k].end);
        }
        Ok(UpperAll(found))
      else
        var spans := FindAll(BodyBates, text, 0);
        MatchListWithin(BodyBates, text, 0, spans);
        var found := Groups(BodyBates, text, spans);
        forall k | 0 <= k < |spans| ensures UpperAll(found)[k] == found[k] && IsAaronCode(found[k], 8) {
          BodyMatchIsUpper(text, spans[k].start, spans[k].end);
        }
        assert UpperAll(found) == found;
        Ok(UpperAll(found))
  }

  // ---------------------------------------------------------------------
  // extract_repair_order_numbers_structured_ocr_pdf
  // ---------------------------------------------------------------------

  /** `DocumentExtractor.extract_repair_order_numbers_structured_ocr_pdf`.

      A non-string raises `ValueError`; otherwise the result lists, left to
      right, every whole word made of five or six digits. */
  function ExtractRepairOrders(v: Value): (r: Result<seq<string>>)
    ensures r.Err? <==> v.NotAString?
    ensures r.Err? ==> r.error == ValueError(NotStringTextMessage)
    ensures v.Str? ==>
      exists spans :: MatchList(RepairOrder, v.text, spans) && SpansWithin(v.text, spans)
                      && r.value == Groups(RepairOrder, v.text, spans)
    ensures r.Ok? ==> forall k :: 0 <= k < |r.value| ==> IsRepairOrderNumber(r.value[k])
  {
    match v
    case NotAString => Err(ValueError(NotStringTextMessage))
    case Str(text) =>
      var spans := FindAll(RepairOrder, text, 0);
      MatchListWithin(RepairOrder, text, 0, spans);
      var found := Groups(RepairOrder, text, spans);
      forall k | 0 <= k < |spans| ensures IsRepairOrderNumber(found[k]) {
        var x := found[k];
        forall m | 0 <= m < |x| ensures IsDigit(x[m]) {
          assert x[m] == text[spans[k].start + m];
        }
      }
      Ok(found)
  }

  /** The digits of an AARON code are never reported as a repair-order
      number: no repair-order match starts inside a body-mode AARON match. */
  lemma AaronDigitsAreNotRepairOrders(s: string, i: nat, j: nat, k: nat, l: nat)
    requires IsMatch(BodyBates, s, i, j)
    requires i <= k < j
    ensures !IsMatch(RepairOrder, s, k, l)
  {
    forall m | i <= m < j ensures IsWordChar(s[m]) {
      if m < i + 5 {
        assert s[i + (m - i)] == BatesPrefix[m - i];
      }
    }
    assert s[i + 0] == BatesPrefix[0];
  }

  // ---------------------------------------------------------------------
  // processing_txt_file
  // ---------------------------------------------------------------------

  /** The characters besides `\s` that `processing_txt_file` deletes. */
  const ZeroWidthChars: set<char> := {'\U{200b}', '\U{a0}', '\U{200c}', '\U{200d}', '\U{2060}'}

  /** A character of the class `[\s\u200B\u00A0\u200C\u200D\u2060]`. */
  predicate IsStripped(c: char) {
    IsSpace(c) || c in ZeroWidthChars
  }

  /** Deleting every character of that class (the `re.sub` on line 85). */
  function RemoveStripped(s: string): (r: string)
    ensures |r| <= |s|
    ensures forall k :: 0 <= k < |r| ==> !IsStripped(r[k])
  {
    if s == [] then []
    else (if IsStripped(s[0]) then [] else [s[0]]) + RemoveStripped(s[1..])
  }

  /** The text `processing_txt_file` searches: stripped, then upper-cased. */
  function Clean(s: string): (r: string)
    ensures |r| <= |s|
    ensures forall k :: 0 <= k < |r| ==> !IsStripped(r[k]) && !('a' <= r[k] <= 'z')
    ensures Upper(r) == r
  {
    var removed := RemoveStripped(s);
    var r := Upper(removed);
    assert forall k :: 0 <= k < |r| ==> r[k] == UpperChar(removed[k]);
    r
  }

  /** The five-digit group of a `FOWS?(\d{5})` match. */
  predicate IsFiveDigits(x: string) {
    |x| == 5 && AllDigits(x)
  }

  /** The matches that pass the validity check of `processing_txt_file`,
      in order: exactly those of `found` that are five digits. */
  function FiveDigitMatches(found: seq<string>): (r: seq<string>)
    ensures |r| <= |found|
    ensures forall k :: 0 <= k < |r| ==> IsFiveDigits(r[k])
    ensures (forall k :: 0 <= k < |found| ==> IsFiveDigits(found[k])) ==> r == found
    ensures |found| == 1 ==> r == if IsFiveDigits(found[0]) then found else []
  {
    if found == [] then []
    else (if IsFiveDigits(found[0]) then [found[0]] else []) + FiveDigitMatches(found[1..])
  }

  /** The kept matches are exactly the five-digit ones. */
  lemma {:induction false} FiveDigitMatchesMembers(found: seq<string>)
    ensures forall x :: x in FiveDigitMatches(found) <==> x in found && IsFiveDigits(x)
    decreases |found|
  {
    if found != [] {
      FiveDigitMatchesMembers(found[1..]);
      assert found == [found[0]] + found[1..];
    }
  }

  /** The filter keeps the order of the matches: the kept matches of two
      lists one after the other are those of the first, then those of the
      second. With the one-element case of `FiveDigitMatches` this fixes the
      result, repeats and order included. */
  lemma {:induction false} FiveDigitMatchesAppend(a: seq<string>, b: seq<string>)
    ensures FiveDigitMatches(a + b) == FiveDigitMatches(a) + FiveDigitMatches(b)
    decreases |a|
  {
    if a != [] {
      assert (a + b)[1..] == a[1..] + b;
      FiveDigitMatchesAppend(a[1..], b);
    } else {
      assert a + b == b;
    }
  }

  /** The loop of `processing_txt_file`: keeps each match that is five
      digits and converts it with `int`. The result is the decimal value of
      every five-digit match, in order, and nothing else. */
  function FiveDigitInts(found: seq<string>): (r: seq<int>)
    ensures |r| == |FiveDigitMatches(found)|
    ensures forall k :: 0 <= k < |r| ==> r[k] == DigitsValue(FiveDigitMatches(found)[k])
    ensures forall k :: 0 <= k < |r| ==> 0 <= r[k] <= 99999
  {
    if found == [] then []
    else
      var rest := FiveDigitInts(found[1..]);
      if IsFiveDigits(found[0]) then
        assert FiveDigitMatches(found) == [found[0]] + FiveDigitMatches(found[1..]);
        DigitsValueBound(found[0]);
        [DigitsValue(found[0])] + rest
      else
        assert FiveDigitMatches(found) == FiveDigitMatches(found[1..]);
        rest
  }

  /** When every match is five digits, the loop drops none of them. */
  lemma AllFiveDigitsKept(found: seq<string>)
    requires forall k :: 0 <= k < |found| ==> IsFiveDigits(found[k])
    ensures |FiveDigitInts(found)| == |found|
    ensures forall k :: 0 <= k < |found| ==> FiveDigitInts(found)[k] == DigitsValue(found[k])
  {
    assert FiveDigitMatches(found) == found;
  }

  /** The groups of `FOWS?(\d{5})` matches are five digits each. */
  lemma FowGroupsAreFiveDigits(s: string, spans: seq<Span>)
    requires MatchList(FowMarker, s, spans)
    ensures SpansWithin(s, spans)
    ensures forall k :: 0 <= k < |spans| ==> IsFiveDigits(Groups(FowMarker, s, spans)[k])
  {
    forall k | 0 <= k < |spans| ensures IsFiveDigits(Groups(FowMarker, s, spans)[k]) {
      var g := Groups(FowMarker, s, spans)[k];
      var e := spans[k].end;
      forall m | 0 <= m < 5 ensures IsDigit(g[m]) {
        assert g[m] == s[e - 5 + m];
      }
    }
  }

  /** `DocumentExtractor.processing_txt_file(text)`.

      Empty or non-string input gives `[]`. Otherwise, after deleting every
      whitespace and zero-width character and upper-casing, it returns, left
      to right, the five-digit number of every `FOW` or `FOWS` directly
      followed by five digits; each is an integer in `[0, 99999]`. */
  function ProcessingTxtFile(v: Value): (r: seq<int>)
    ensures v.NotAString? || v == Str("") ==> r == []
    ensures v.Str? ==>
      exists spans :: MatchList(FowMarker, Clean(v.text), spans)
                      && SpansWithin(Clean(v.text), spans)
                      && |r| == |spans|
                      && forall k :: 0 <= k < |r| ==>
                           IsFiveDigits(Groups(FowMarker, Clean(v.text), spans)[k])
                           && r[k] == DigitsValue(Groups(FowMarker, Clean(v.text), spans)[k])
    ensures forall k :: 0 <= k < |r| ==> 0 <= r[k] <= 99999
  {
    match v
    case NotAString => []
    case Str(text) =>
      var cleaned := Clean(text);
      var spans := FindAll(FowMarker, cleaned, 0);
      FowGroupsAreFiveDigits(cleaned, spans);
      if text == "" then
        assert spans == [];
        []
      else
        AllFiveDigitsKept(Groups(FowMarker, cleaned, spans));
        FiveDigitInts(Groups(FowMarker, cleaned, spans))
  }

  /** Deleting characters distributes over concatenation. */
  lemma {:induction false} RemoveStrippedAppend(a: string, b: string)
    ensures RemoveStripped(a + b) == RemoveStripped(a) + RemoveStripped(b)
  {
    if a != [] {
      assert (a + b)[1..] == a[1..] + b;
      RemoveStrippedAppend(a[1..], b);
    } else {
      assert a + b == b;
    }
  }

  /** One character is deleted exactly when it is in the class, and kept
      otherwise. With `RemoveStrippedAppend` this fixes the deletion. */
  lemma RemoveStrippedSingle(c: char)
    ensures RemoveStripped([c]) == if IsStripped(c) then [] else [c]
  {
    assert [c][1..] == [];
  }

  /** Cleaning one character deletes it when it is in the class and
      upper-cases it otherwise. */
  lemma CleanSingle(c: char)
    ensures Clean([c]) == if IsStripped(c) then [] else [UpperChar(c)]
  {
    RemoveStrippedSingle(c);
  }

  /** Cleaning works character by character, in order. */
  lemma CleanAppend(a: string, b: string)
    ensures Clean(a + b) == Clean(a) + Clean(b)
  {
    RemoveStrippedAppend(a, b);
    UpperAppend(RemoveStripped(a), RemoveStripped(b));
  }

  /** The result depends only on the cleaned text. */
  lemma TxtDependsOnlyOnClean(s: string, t: string)
    requires Clean(s) == Clean(t)
    ensures ProcessingTxtFile(Str(s)) == ProcessingTxtFile(Str(t))
  {
    if Clean(s) == "" {
      assert FindAll(FowMarker, "", 0) == [];
    }
  }

  /** Inserting a whitespace or zero-width character anywhere does not
      change the repair-order numbers found in a text file. */
  lemma TxtIgnoresInsertedSpacing(a: string, b: string, c: char)
    requires IsStripped(c)
    ensures ProcessingTxtFile(Str(a + [c] + b)) == ProcessingTxtFile(Str(a + b))
  {
    RemoveInserted(a, b, c);
    TxtDependsOnlyOnClean(a + [c] + b, a + b);
  }

  /** Deleting characters also deletes an inserted one. */
  lemma RemoveInserted(a: string, b: string, c: char)
    requires IsStripped(c)
    ensures Clean(a + [c] + b) == Clean(a + b)
  {
    RemoveStrippedAppend(a + [c], b);
    RemoveStrippedAppend(a, [c]);
    RemoveStrippedAppend(a, b);
    assert RemoveStripped([c]) == [] by {
      assert [c][1..] == [];
    }
  }

  /** Upper-casing a character does not change whether it is deleted. */
  lemma StrippedIgnoresCase(c: char)
    ensures IsStripped(UpperChar(c)) == IsStripped(c)
  {
  }

  /** Two texts that agree up to letter case clean to the same text. */
  lemma {:induction false} CleanIgnoresCase(s: string, t: string)
    requires |s| == |t|
    requires forall k :: 0 <= k < |s| ==> UpperChar(s[k]) == UpperChar(t[k])
    ensures Clean(s) == Clean(t)
  {
    if s != [] {
      StrippedIgnoresCase(s[0]);
      StrippedIgnoresCase(t[0]);
      CleanIgnoresCase(s[1..], t[1..]);
      var rs, rt := RemoveStripped(s[1..]), RemoveStripped(t[1..]);
      assert Upper(rs) == Upper(rt);
      var hs := if IsStripped(s[0]) then [] else [s[0]];
      var ht := if IsStripped(t[0]) then [] else [t[0]];
      assert Upper(hs) == Upper(ht);
      UpperAppend(hs, rs);
      UpperAppend(ht, rt);
    }
  }

  lemma UpperAppend(a: string, b: string)
    ensures Upper(a + b) == Upper(a) + Upper(b)
  {
  }

  /** Changing the case of letters does not change the repair-order
      numbers found in a text file. */
  lemma TxtIgnoresLetterCase(s: string, t: string)
    requires |s| == |t|
    requires forall k :: 0 <= k < |s| ==> UpperChar(s[k]) == UpperChar(t[k])
    ensures ProcessingTxtFile(Str(s)) == ProcessingTxtFile(Str(t))
  {
    CleanIgnoresCase(s, t);
    TxtDependsOnlyOnClean(s, t);
  }
}
