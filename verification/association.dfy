/** The per-page associator `DocumentExtractor.process_structured_ocr_pdf`
    (utils/extraction_utils.py): every page either yields its single AARON
    code with that page's repair-order numbers, or is reported as an issue.

    Python dictionaries are modelled as sequences of entries in insertion
    order. */
module Association {
  import opened Wrappers
  import opened Patterns
  import opened DocumentExtractor

  /** Why a page could not be associated. */
  datatype IssueReason =
    | NoBates
    | MultipleBates
    | NoRepairOrders
      /** The page text raised while being searched (it was not a string). */
    | Raised(error: Error)

  /** What one iteration of the page loop decides. */
  datatype PageOutcome =
    | InMap(bates: string, repairOrders: seq<string>)
    | Issue(reason: IssueReason)

  /** One `bate_number -> repair_order_numbers` item of a page's inner
      dictionary. The row normaliser also accepts `None` as the list. */
  datatype CodeEntry = CodeEntry(bates: string, repairOrders: Option<seq<string>>)

  /** One `page_num -> {bate_number: [...]}` item of `bate_dict`. */
  datatype PageEntry = PageEntry(page: int, codes: seq<CodeEntry>)

  /** The body of the `try` block for one page. */
  function ClassifyPage(v: Value): (o: PageOutcome)
    ensures v.NotAString? ==> o == Issue(Raised(ValueError(NotStringMessage)))
    ensures o.InMap? ==> IsAaronCode(o.bates, 8) && |o.repairOrders| >= 1
    ensures o.InMap? ==> forall k :: 0 <= k < |o.repairOrders| ==> IsRepairOrderNumber(o.repairOrders[k])
  {
    match ExtractAaronCode(v, false)
    case Err(e) => Issue(Raised(e))
    case Ok(codes) =>
      if |codes| != 1 then Issue(if |codes| == 0 then NoBates else MultipleBates)
      else
        match ExtractRepairOrders(v)
        case Err(e) => Issue(Raised(e))
        case Ok(orders) =>
          if |orders| == 0 then Issue(NoRepairOrders) else InMap(codes[0], orders)
  }

  /** Exactly one match of `p` occurs in `s`. */
  ghost predicate ExactlyOneMatch(p: Pattern, s: string) {
    exists i, j :: IsMatch(p, s, i, j) && forall i', j' :: IsMatch(p, s, i', j') ==> i' == i && j' == j
  }

  /** At least one match of `p` occurs in `s`. */
  ghost predicate SomeMatch(p: Pattern, s: string) {
    exists i, j :: IsMatch(p, s, i, j)
  }

  /** A match list has one element exactly when there is one match. */
  lemma SingletonMatchList(p: Pattern, s: string, spans: seq<Span>)
    requires MatchList(p, s, spans)
    ensures |spans| == 1 <==> ExactlyOneMatch(p, s)
  {
    if |spans| == 1 {
      var m := spans[0];
      forall i', j' | IsMatch(p, s, i', j') ensures i' == m.start && j' == m.end {
        assert Span(i', j') in spans;
      }
      assert IsMatch(p, s, m.start, m.end);
    }
    if |spans| == 0 {
      forall i, j ensures !IsMatch(p, s, i, j) {
      }
    }
    if |spans| >= 2 {
      assert IsMatch(p, s, spans[0].start, spans[0].end);
      assert IsMatch(p, s, spans[1].start, spans[1].end);
      assert spans[0].end <= spans[1].start;
      assert spans[0] != spans[1];
    }
  }

  /** A match list is non-empty exactly when there is a match. */
  lemma NonEmptyMatchList(p: Pattern, s: string, spans: seq<Span>)
    requires MatchList(p, s, spans)
    ensures |spans| >= 1 <==> SomeMatch(p, s)
  {
    if |spans| >= 1 {
      assert IsMatch(p, s, spans[0].start, spans[0].end);
    }
    if SomeMatch(p, s) {
      var i, j :| IsMatch(p, s, i, j);
      assert Span(i, j) in spans;
    }
  }

  /** The association rule in terms of the regular expressions: a page goes
      into the map exactly when its text holds exactly one whole-word AARON
      code and at least one whole-word repair-order number. */
  lemma {:induction false} PageInMapIff(s: string)
    ensures ClassifyPage(Str(s)).InMap? <==>
      ExactlyOneMatch(BodyBates, s) && SomeMatch(RepairOrder, s)
  {
    var codes := ExtractAaronCode(Str(s), false).value;
    var bs :| MatchList(BodyBates, s, bs) && SpansWithin(s, bs) && codes == Groups(BodyBates, s, bs);
    SingletonMatchList(BodyBates, s, bs);
    var orders := ExtractRepairOrders(Str(s)).value;
    var rs :| MatchList(RepairOrder, s, rs) && SpansWithin(s, rs) && orders == Groups(RepairOrder, s, rs);
    NonEmptyMatchList(RepairOrder, s, rs);
  }

  /** Why a page is an issue, in terms of the regular expressions: no AARON
      code, more than one, or exactly one but no repair-order number. */
  lemma {:induction false} IssueReasonIff(s: string)
    ensures ClassifyPage(Str(s)) == Issue(NoBates) <==> !SomeMatch(BodyBates, s)
    ensures ClassifyPage(Str(s)) == Issue(MultipleBates) <==>
      SomeMatch(BodyBates, s) && !ExactlyOneMatch(BodyBates, s)
    ensures ClassifyPage(Str(s)) == Issue(NoRepairOrders) <==>
      ExactlyOneMatch(BodyBates, s) && !SomeMatch(RepairOrder, s)
  {
    var codes := ExtractAaronCode(Str(s), false).value;
    var bs :| MatchList(BodyBates, s, bs) && SpansWithin(s, bs) && codes == Groups(BodyBates, s, bs);
    SingletonMatchList(BodyBates, s, bs);
    NonEmptyMatchList(BodyBates, s, bs);
    var orders := ExtractRepairOrders(Str(s)).value;
    var rs :| MatchList(RepairOrder, s, rs) && SpansWithin(s, rs) && orders == Groups(RepairOrder, s, rs);
    NonEmptyMatchList(RepairOrder, s, rs);
  }

  /** A page that goes into the map carries its one AARON code and all its
      repair-order numbers, in the order they appear. */
  lemma {:induction false} InMapCarriesExtraction(s: string)
    requires ClassifyPage(Str(s)).InMap?
    ensures ExtractAaronCode(Str(s), false) == Ok([ClassifyPage(Str(s)).bates])
    ensures ExtractRepairOrders(Str(s)) == Ok(ClassifyPage(Str(s)).repairOrders)
  {
    var codes := ExtractAaronCode(Str(s), false).value;
    assert codes == [codes[0]];
  }

  /** The pages of `bate_dict`, in insertion order. */
  function Pages(d: seq<PageEntry>): (r: seq<int>)
    ensures |r| == |d|
  {
    seq(|d|, k requires 0 <= k < |d| => d[k].page)
  }

  predicate StrictlyIncreasing(xs: seq<int>) {
    forall a, b :: 0 <= a < b < |xs| ==> xs[a] < xs[b]
  }

  /** `e` is the dictionary item the loop stores for outcome `o`. */
  predicate EntryFor(e: PageEntry, o: PageOutcome) {
    o.InMap? && e.codes == [CodeEntry(o.bates, Some(o.repairOrders))]
  }

  /** What the page loop decides for each page, in page order. */
  function Outcomes(texts: seq<Value>): (r: seq<PageOutcome>)
    ensures |r| == |texts|
    ensures forall k :: 0 <= k < |texts| ==> r[k] == ClassifyPage(texts[k])
  {
    seq(|texts|, k requires 0 <= k < |texts| => ClassifyPage(texts[k]))
  }

  /** After the first `i` pages: every one of them is in exactly the
      collection its outcome says, nothing else is, and both collections are
      in increasing page order. */
  ghost predicate AssociatedUpTo(outcomes: seq<PageOutcome>, i: nat, bateDict: seq<PageEntry>, pagesWithIssues: seq<int>) {
    && i <= |outcomes|
    && |bateDict| + |pagesWithIssues| == i
    && (forall p :: 1 <= p <= i ==> (p in Pages(bateDict) <==> outcomes[p - 1].InMap?))
    && (forall p :: 1 <= p <= i ==> (p in pagesWithIssues <==> outcomes[p - 1].Issue?))
    && (forall k :: 0 <= k < |pagesWithIssues| ==> 1 <= pagesWithIssues[k] <= i)
    && (forall k :: 0 <= k < |bateDict| ==>
          1 <= bateDict[k].page <= i && EntryFor(bateDict[k], outcomes[bateDict[k].page - 1]))
    && StrictlyIncreasing(Pages(bateDict))
    && StrictlyIncreasing(pagesWithIssues)
  }

  /** One more page, stored where its outcome says, keeps the partition. */
  lemma AssociateStep(outcomes: seq<PageOutcome>, i: nat, bateDict: seq<PageEntry>, pagesWithIssues: seq<int>)
    requires AssociatedUpTo(outcomes, i, bateDict, pagesWithIssues) && i < |outcomes|
    ensures var o := outcomes[i];
      if o.InMap? then
        AssociatedUpTo(outcomes, i + 1, bateDict + [PageEntry(i + 1, [CodeEntry(o.bates, Some(o.repairOrders))])], pagesWithIssues)
      else
        AssociatedUpTo(outcomes, i + 1, bateDict, pagesWithIssues + [i + 1])
  {
    var o := outcomes[i];
    if o.InMap? {
      var entry := PageEntry(i + 1, [CodeEntry(o.bates, Some(o.repairOrders))]);
      assert Pages(bateDict + [entry]) == Pages(bateDict) + [i + 1];
    }
  }

  /** The partition over all pages, restated in terms of the page texts. */
  lemma AssociatedAll(texts: seq<Value>, outcomes: seq<PageOutcome>, bateDict: seq<PageEntry>, pagesWithIssues: seq<int>)
    requires outcomes == Outcomes(texts)
    requires AssociatedUpTo(outcomes, |texts|, bateDict, pagesWithIssues)
    ensures forall p :: 1 <= p <= |texts| ==>
      (p in Pages(bateDict) <==> ClassifyPage(texts[p - 1]).InMap?)
    ensures forall p :: 1 <= p <= |texts| ==>
      (p in pagesWithIssues <==> ClassifyPage(texts[p - 1]).Issue?)
    ensures forall k :: 0 <= k < |bateDict| ==>
      1 <= bateDict[k].page <= |texts| && EntryFor(bateDict[k], ClassifyPage(texts[bateDict[k].page - 1]))
  {
  }

  /** The page loop over already-classified pages: page `k + 1` goes into
      `bateDict` or `pagesWithIssues` as `outcomes[k]` says. */
  method Partition(outcomes: seq<PageOutcome>) returns (bateDict: seq<PageEntry>, pagesWithIssues: seq<int>)
    ensures AssociatedUpTo(outcomes, |outcomes|, bateDict, pagesWithIssues)
  {
    bateDict := [];
    pagesWithIssues := [];
    var i := 0;
    while i < |outcomes|
      invariant AssociatedUpTo(outcomes, i, bateDict, pagesWithIssues)
    {
      AssociateStep(outcomes, i, bateDict, pagesWithIssues);
      var pageNum := i + 1;
      var outcome := outcomes[i];
      if outcome.InMap? {
        bateDict := bateDict + [PageEntry(pageNum, [CodeEntry(outcome.bates, Some(outcome.repairOrders))])];
      } else {
        pagesWithIssues := pagesWithIssues + [pageNum];
      }
      i := i + 1;
    }
  }

  /** `DocumentExtractor.process_structured_ocr_pdf`: pages are numbered
      from 1; every page lands in exactly one of `bateDict` and
      `pagesWithIssues`, each decided by that page's text alone, and both are
      in increasing page order. */
  method ProcessStructuredOcrPdf(texts: seq<Value>) returns (bateDict: seq<PageEntry>, pagesWithIssues: seq<int>)
    ensures |bateDict| + |pagesWithIssues| == |texts|
    ensures forall p :: 1 <= p <= |texts| ==>
      (p in Pages(bateDict) <==> ClassifyPage(texts[p - 1]).InMap?)
    ensures forall p :: 1 <= p <= |texts| ==>
      (p in pagesWithIssues <==> ClassifyPage(texts[p - 1]).Issue?)
    ensures forall k :: 0 <= k < |pagesWithIssues| ==> 1 <= pagesWithIssues[k] <= |texts|
    ensures forall k :: 0 <= k < |bateDict| ==>
      1 <= bateDict[k].page <= |texts| && EntryFor(bateDict[k], ClassifyPage(texts[bateDict[k].page - 1]))
    ensures StrictlyIncreasing(Pages(bateDict)) && StrictlyIncreasing(pagesWithIssues)
  {
    var outcomes := Outcomes(texts);
    bateDict, pagesWithIssues := Partition(outcomes);
    AssociatedAll(texts, outcomes, bateDict, pagesWithIssues);
  }
}
