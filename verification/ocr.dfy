/** `PdfProcessor` (utils/ocr_utils.py): the checks on the uploaded bytes
    before the OCR service is called, and the validation of its response
    into one labelled markdown string per page.

    The OCR service is a parameter: a function from the PDF bytes to a
    response, or to nothing when the client raises. The base64 wrapping of the request is left out;
    it is a fixed, lossless encoding of the same bytes. */
module Ocr {
  import opened Wrappers
  import opened Text

  /** One page of the OCR response; `markdown` is absent when the page
      object has no `markdown` attribute. */
  datatype OcrPage = OcrPage(markdown: Option<string>)

  /** The OCR response as `validate_ocr_response` sees it. */
  datatype OcrResponse =
      /** `None` or another falsy value. */
    | Falsy
      /** An object without a `pages` attribute. */
    | WithoutPages
      /** An object whose `pages` is this list (`None` reads as empty). */
    | WithPages(pages: seq<OcrPage>)

  const EmptyResponseMessage: string := "OCR response is empty or None."
  const NoPagesMessage: string := "OCR response does not contain any pages."
  const NoPagesAttributeMessage: string := "OCR response does not have pages attribute."
  const EmptyPdfMessage: string := "PDF bytes are empty or None. Please ensure the PDF file was read correctly."
  const InvalidPdfMessage: string := "Invalid PDF format. File does not appear to be a valid PDF."

  const LabelPrefix: string := "**PAGE "
  const LabelSuffix: string := "**\n\n"

  /** The text stored for page `pageNum`: a bold page marker, a blank line,
      then the page's markdown. */
  function Label(pageNum: nat, markdown: string): (r: string)
    ensures ParseLabel(r) == Some((pageNum, markdown))
  {
    var s := LabelPrefix + NatToString(pageNum) + LabelSuffix + markdown;
    ParseLabelRoundTrip(pageNum, markdown, s);
    s
  }

  /** Reads a page marker back: the page number and the markdown after it. */
  function ParseLabel(s: string): (r: Option<(nat, string)>)
    ensures r.Some? ==> |s| >= |LabelPrefix| + 1 + |LabelSuffix| && s[..|LabelPrefix|] == LabelPrefix
  {
    var p := |LabelPrefix|;
    if |s| < p || s[..p] != LabelPrefix then None
    else
      var n := DigitRunEnd(s, p);
      if n == p || n + |LabelSuffix| > |s| || s[n..n + |LabelSuffix|] != LabelSuffix then None
      else
        assert AllDigits(s[p..n]);
        Some((DigitsValue(s[p..n]), s[n + |LabelSuffix|..]))
  }

  /** The label loses nothing: the page number and the markdown can be read
      back from it. */
  lemma {:induction false} ParseLabelRoundTrip(pageNum: nat, markdown: string, s: string)
    requires s == LabelPrefix + NatToString(pageNum) + LabelSuffix + markdown
    ensures ParseLabel(s) == Some((pageNum, markdown))
  {
    var digits := NatToString(pageNum);
    var p := |LabelPrefix|;
    var n := p + |digits|;
    assert s == LabelPrefix + digits + LabelSuffix + markdown;
    assert s[..p] == LabelPrefix;
    assert s[p..n] == digits;
    assert s[n..n + |LabelSuffix|] == LabelSuffix;
    assert s[n + |LabelSuffix|..] == markdown;
    assert DigitsBetween(s, p, n) by {
      forall k | p <= k < n ensures IsDigit(s[k]) {
        assert s[k] == digits[k - p];
      }
    }
    assert !IsDigit(s[n]) by {
      assert s[n] == LabelSuffix[0];
    }
    DigitRunEndUnique(s, p, n);
    NatToStringRoundTrip(pageNum);
  }

  /** `idx` lists, in increasing order, exactly the positions from `from` on
      of the pages that carry markdown. */
  ghost predicate MarkdownIndicesFrom(pages: seq<OcrPage>, from: nat, idx: seq<nat>) {
    && (forall j :: 0 <= j < |idx| ==> from <= idx[j] < |pages| && pages[idx[j]].markdown.Some?)
    && (forall j, m :: 0 <= j < m < |idx| ==> idx[j] < idx[m])
    && (forall k :: from <= k < |pages| && pages[k].markdown.Some? ==> k in idx)
  }

  /** The positions, from `from` on, of the pages that carry markdown. */
  function MarkdownIndices(pages: seq<OcrPage>, from: nat): (idx: seq<nat>)
    requires from <= |pages|
    ensures MarkdownIndicesFrom(pages, from, idx)
    ensures |idx| <= |pages| - from
    ensures (forall k :: from <= k < |pages| ==> pages[k].markdown.Some?) ==>
      |idx| == |pages| - from && forall j :: 0 <= j < |idx| ==> idx[j] == from + j
    decreases |pages| - from
  {
    if from == |pages| then []
    else if pages[from].markdown.Some? then [from] + MarkdownIndices(pages, from + 1)
    else MarkdownIndices(pages, from + 1)
  }

  /** The labelled markdown of the pages at the given positions, each
      numbered by its position in the response (from 1). */
  function LabelPages(pages: seq<OcrPage>, idx: seq<nat>): (r: seq<string>)
    requires forall j :: 0 <= j < |idx| ==> idx[j] < |pages| && pages[idx[j]].markdown.Some?
    ensures |r| == |idx|
  {
    seq(|idx|, j requires 0 <= j < |idx| => Label(idx[j] + 1, pages[idx[j]].markdown.value))
  }

  /** `PdfProcessor.validate_ocr_response`: a falsy response, one without
      `pages` and one with no pages raise `ValueError`; otherwise every page
      that has markdown yields its labelled text, in page order, numbered by
      its position in the response, and pages without markdown are skipped. */
  function ValidateOcrResponse(response: OcrResponse): (r: Result<seq<string>>)
    ensures response.Falsy? <==> r == Err(ValueError(EmptyResponseMessage))
    ensures response.WithoutPages? <==> r == Err(ValueError(NoPagesAttributeMessage))
    ensures (response.WithPages? && |response.pages| == 0) <==> r == Err(ValueError(NoPagesMessage))
    ensures response.WithPages? && |response.pages| > 0 ==> r.Ok? && |r.value| <= |response.pages|
    ensures r.Ok? ==>
      && response.WithPages? && |response.pages| > 0
      && exists idx :: MarkdownIndicesFrom(response.pages, 0, idx) && r.value == LabelPages(response.pages, idx)
  {
    match response
    case Falsy => Err(ValueError(EmptyResponseMessage))
    case WithoutPages => Err(ValueError(NoPagesAttributeMessage))
    case WithPages(pages) =>
      if |pages| == 0 then Err(ValueError(NoPagesMessage))
      else Ok(LabelPages(pages, MarkdownIndices(pages, 0)))
  }

  /** When every page carries markdown, page `k + 1` of the result is the
      label of the `k`-th page of the response. */
  lemma {:induction false} AllPagesLabelled(pages: seq<OcrPage>)
    requires |pages| > 0
    requires forall k :: 0 <= k < |pages| ==> pages[k].markdown.Some?
    ensures ValidateOcrResponse(WithPages(pages)).Ok?
    ensures var r := ValidateOcrResponse(WithPages(pages)).value;
      |r| == |pages| &&
      forall k :: 0 <= k < |pages| ==> r[k] == Label(k + 1, pages[k].markdown.value)
  {
    var idx := MarkdownIndices(pages, 0);
    assert |idx| == |pages|;
  }

  // ---------------------------------------------------------------------
  // extract_text_from_pdf
  // ---------------------------------------------------------------------

  /** `%PDF`, the first bytes of every PDF file. */
  const PdfMagic: seq<byte> := [0x25, 0x50, 0x44, 0x46]

  predicate StartsWithPdfMagic(b: seq<byte>) {
    |b| >= |PdfMagic| && b[..|PdfMagic|] == PdfMagic
  }

  /** `PdfProcessor.extract_text_from_pdf` (one attempt): absent or empty
      bytes and bytes that do not start with `%PDF` raise `ValueError`
      before the OCR service is called; otherwise the service's failure is
      re-raised and its response is validated. */
  function ExtractTextFromPdf(pdfBytes: Option<seq<byte>>, ocr: seq<byte> -> Option<OcrResponse>): (r: Result<seq<string>>)
    ensures (pdfBytes.None? || |pdfBytes.value| == 0) <==> r == Err(ValueError(EmptyPdfMessage))
    ensures pdfBytes.Some? && |pdfBytes.value| > 0 && !StartsWithPdfMagic(pdfBytes.value) ==>
      r == Err(ValueError(InvalidPdfMessage))
    ensures pdfBytes.Some? && StartsWithPdfMagic(pdfBytes.value) ==>
      (ocr(pdfBytes.value).None? ==> r == Err(CollaboratorFailure)) &&
      (ocr(pdfBytes.value).Some? ==> r == ValidateOcrResponse(ocr(pdfBytes.value).value))
  {
    if pdfBytes.None? || |pdfBytes.value| == 0 then Err(ValueError(EmptyPdfMessage))
    else if !StartsWithPdfMagic(pdfBytes.value) then Err(ValueError(InvalidPdfMessage))
    else
      match ocr(pdfBytes.value)
      case None => Err(CollaboratorFailure)
      case Some(response) => ValidateOcrResponse(response)
  }

  /** Bytes rejected by the prelude never reach the OCR service: the result
      is the same whatever the service would have answered. */
  lemma RejectedBytesIgnoreService(pdfBytes: Option<seq<byte>>, ocr1: seq<byte> -> Option<OcrResponse>, ocr2: seq<byte> -> Option<OcrResponse>)
    requires pdfBytes.None? || !StartsWithPdfMagic(pdfBytes.value)
    ensures ExtractTextFromPdf(pdfBytes, ocr1) == ExtractTextFromPdf(pdfBytes, ocr2)
    ensures ExtractTextFromPdf(pdfBytes, ocr1).Err?
  {
  }

  /** A successful extraction came from well-formed bytes and a response
      with at least one page. */
  lemma SuccessNeedsPdfAndPages(pdfBytes: Option<seq<byte>>, ocr: seq<byte> -> Option<OcrResponse>)
    requires ExtractTextFromPdf(pdfBytes, ocr).Ok?
    ensures pdfBytes.Some? && StartsWithPdfMagic(pdfBytes.value)
    ensures ocr(pdfBytes.value).Some? && ocr(pdfBytes.value).value.WithPages?
    ensures |ExtractTextFromPdf(pdfBytes, ocr).value| <= |ocr(pdfBytes.value).value.pages|
  {
    var pages := ocr(pdfBytes.value).value.pages;
    assert |MarkdownIndices(pages, 0)| <= |pages|;
  }
}
