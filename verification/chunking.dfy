/** `process_pdf` (main.py): the labelled OCR pages are cut into chunks of
    consecutive pages, each chunk's pages are joined into one markdown text
    and put into a prompt, and the language model is asked once per chunk.

    The OCR service, the prompt template read from disk and the language
    model are parameters. The Streamlit progress and status output is left
    out. */
module Chunking {
  import opened Wrappers
  import opened Text
  import opened Ocr

  /** One entry of `chunk_results`. Page numbers count from 1 and `endPage`
      is inclusive. */
  datatype Chunk = Chunk(number: nat, startPage: nat, endPage: nat, combinedMarkdown: string, finalPrompt: string)

  /** The separator between the pages of a chunk. */
  const PageSeparator: string := "\n\n"

  /** The marker a prompt template carries where the chunk's text goes. */
  const OcrTextPlaceholder: string := "{ocr_text}"

  // ---------------------------------------------------------------------
  // The chunk-size slider
  // ---------------------------------------------------------------------

  const ChunkSizeMin: nat := 10
  const ChunkSizeMax: nat := 100
  const ChunkSizeStep: nat := 10

  /** The values the "Pages per chunk" slider can produce. */
  predicate IsSliderValue(c: int) {
    ChunkSizeMin <= c <= ChunkSizeMax && (c - ChunkSizeMin) % ChunkSizeStep == 0
  }

  // ---------------------------------------------------------------------
  // Chunk boundaries
  // ---------------------------------------------------------------------

  /** `(total_pages + CHUNK_SIZE - 1) // CHUNK_SIZE`: the fewest chunks of
      `size` pages that hold `total` pages. */
  function NumChunks(total: nat, size: nat): (n: nat)
    requires size >= 1
    ensures n * size >= total
    ensures n == 0 || (n - 1) * size < total
    ensures n == 0 <==> total == 0
  {
    var n := (total + size - 1) / size;
    assert total + size - 1 == n * size + (total + size - 1) % size;
    n
  }

  function Min(a: int, b: int): int {
    if a <= b then a else b
  }

  /** The 0-based index of the first page of chunk `k`. */
  function ChunkStart(size: nat, k: nat): nat {
    k * size
  }

  /** The 0-based index just after the last page of chunk `k`. */
  function ChunkEnd(total: nat, size: nat, k: nat): nat {
    Min(k * size + size, total)
  }

  lemma MulLeft(a: nat, b: nat, c: nat)
    requires a <= b
    ensures a * c <= b * c
  {
  }

  /** Every chunk starts inside the page list and holds between one and
      `size` pages. */
  lemma ChunkBounds(total: nat, size: nat, k: nat)
    requires size >= 1 && k < NumChunks(total, size)
    ensures ChunkStart(size, k) < ChunkEnd(total, size, k) <= total
    ensures ChunkEnd(total, size, k) - ChunkStart(size, k) <= size
  {
    MulLeft(k, NumChunks(total, size) - 1, size);
  }

  /** Consecutive chunks meet: each starts where the previous one ended. */
  lemma ChunksAdjacent(total: nat, size: nat, k: nat)
    requires size >= 1 && k + 1 < NumChunks(total, size)
    ensures ChunkEnd(total, size, k) == ChunkStart(size, k + 1)
  {
    MulLeft(k + 1, NumChunks(total, size) - 1, size);
  }

  /** The last chunk ends with the last page. */
  lemma LastChunkEndsAtTotal(total: nat, size: nat)
    requires size >= 1 && total > 0
    ensures ChunkEnd(total, size, NumChunks(total, size) - 1) == total
  {
  }

  /** The pages of chunk `k`. */
  function ChunkPages(pages: seq<string>, size: nat, k: nat): (r: seq<string>)
    requires size >= 1 && k < NumChunks(|pages|, size)
    ensures 1 <= |r| <= size
  {
    ChunkBounds(|pages|, size, k);
    pages[ChunkStart(size, k)..ChunkEnd(|pages|, size, k)]
  }

  /** The pages of the first `n` chunks, in order. */
  function ConcatChunks(pages: seq<string>, size: nat, n: nat): seq<string>
    requires size >= 1 && n <= NumChunks(|pages|, size)
  {
    if n == 0 then [] else ConcatChunks(pages, size, n - 1) + ChunkPages(pages, size, n - 1)
  }

  /** The first `n` chunks hold exactly the pages before the end of chunk
      `n - 1`. */
  lemma {:induction false} ConcatChunksPrefix(pages: seq<string>, size: nat, n: nat)
    requires size >= 1 && 0 < n <= NumChunks(|pages|, size)
    ensures ConcatChunks(pages, size, n) == pages[..ChunkEnd(|pages|, size, n - 1)]
  {
    var total := |pages|;
    ChunkBounds(total, size, n - 1);
    if n > 1 {
      ConcatChunksPrefix(pages, size, n - 1);
      ChunksAdjacent(total, size, n - 2);
      assert pages[..ChunkEnd(total, size, n - 1)]
          == pages[..ChunkEnd(total, size, n - 2)] + pages[ChunkStart(size, n - 1)..ChunkEnd(total, size, n - 1)];
    }
  }

  /** The chunks cover the pages: concatenated in order, they give back the
      whole page list, each page once. */
  lemma ChunksCoverPages(pages: seq<string>, size: nat)
    requires size >= 1
    ensures ConcatChunks(pages, size, NumChunks(|pages|, size)) == pages
  {
    if |pages| > 0 {
      ConcatChunksPrefix(pages, size, NumChunks(|pages|, size));
      LastChunkEndsAtTotal(|pages|, size);
    }
  }

  // ---------------------------------------------------------------------
  // Prompts
  // ---------------------------------------------------------------------

  /** The header put before a chunk's text when no usable template is
      available. */
  function FallbackHeader(startPage: nat, endPage: nat): string {
    "# OCR TEXT DATA (Pages " + NatToString(startPage) + "-" + NatToString(endPage) + ")\n\n"
  }

  /** The template is present, non-empty and carries the placeholder. */
  predicate UsesTemplate(template: Option<string>) {
    template.Some? && |template.value| > 0 && Contains(template.value, OcrTextPlaceholder)
  }

  /** `final_prompt`: a usable template has every placeholder replaced by
      the chunk's text; otherwise the text follows the fallback header. */
  function Prompt(template: Option<string>, combined: string, startPage: nat, endPage: nat): (r: string)
    ensures UsesTemplate(template) ==> r == Join(SplitOn(template.value, OcrTextPlaceholder), combined)
    ensures !UsesTemplate(template) ==> r == FallbackHeader(startPage, endPage) + combined
  {
    if UsesTemplate(template) then
      ReplaceAllIsSplitJoin(template.value, OcrTextPlaceholder, combined);
      ReplaceAll(template.value, OcrTextPlaceholder, combined)
    else
      FallbackHeader(startPage, endPage) + combined
  }

  /** A string containing `pat` splits into at least two pieces. */
  lemma SplitAtOccurrence(s: string, pat: string)
    requires |pat| > 0 && Contains(s, pat)
    ensures |SplitOn(s, pat)| >= 2
  {
    var parts := SplitOn(s, pat);
    assert Join(parts, pat) == s && !Contains(parts[0], pat);
  }

  /** Joining at least two pieces puts the separator right after the first. */
  lemma JoinHasSeparator(parts: seq<string>, sep: string)
    requires |parts| >= 2
    ensures OccursAt(Join(parts, sep), sep, |parts[0]|)
  {
    var j := Join(parts, sep);
    assert j == parts[0] + sep + Join(parts[1..], sep);
    assert j[|parts[0]|..|parts[0]| + |sep|] == sep;
  }

  /** The chunk's text always reaches the model: it occurs in the prompt,
      whichever way the prompt was built. */
  lemma PromptContainsText(template: Option<string>, combined: string, startPage: nat, endPage: nat)
    ensures Contains(Prompt(template, combined, startPage, endPage), combined)
  {
    var r := Prompt(template, combined, startPage, endPage);
    if UsesTemplate(template) {
      var parts := SplitOn(template.value, OcrTextPlaceholder);
      SplitAtOccurrence(template.value, OcrTextPlaceholder);
      JoinHasSeparator(parts, combined);
      assert OccursAt(r, combined, |parts[0]|);
    } else {
      var h := FallbackHeader(startPage, endPage);
      assert r[|h|..|h| + |combined|] == combined;
      assert OccursAt(r, combined, |h|);
    }
  }

  // ---------------------------------------------------------------------
  // Building the chunks
  // ---------------------------------------------------------------------

  /** `c` is what the loop builds as chunk `k` (0-based) of `pages`. */
  ghost predicate IsChunk(pages: seq<string>, size: nat, template: Option<string>, k: nat, c: Chunk)
    requires size >= 1 && k < NumChunks(|pages|, size)
  {
    && c.number == k + 1
    && c.startPage == ChunkStart(size, k) + 1
    && c.endPage == ChunkEnd(|pages|, size, k)
    && c.combinedMarkdown == Join(ChunkPages(pages, size, k), PageSeparator)
    && c.finalPrompt == Prompt(template, c.combinedMarkdown, c.startPage, c.endPage)
  }

  /** Chunk `k` of `pages`. */
  function MakeChunk(pages: seq<string>, size: nat, template: Option<string>, k: nat): (c: Chunk)
    requires size >= 1 && k < NumChunks(|pages|, size)
    ensures IsChunk(pages, size, template, k, c)
  {
    var startIdx := ChunkStart(size, k);
    var endIdx := ChunkEnd(|pages|, size, k);
    var combined := Join(ChunkPages(pages, size, k), PageSeparator);
    Chunk(k + 1, startIdx + 1, endIdx, combined, Prompt(template, combined, startIdx + 1, endIdx))
  }

  /** The page ranges of a full chunk list: the first starts at page 1, each
      starts on the page after the previous one ended, the last ends on the
      last page, and each holds between one and `size` pages. */
  lemma ChunkRanges(pages: seq<string>, size: nat, template: Option<string>, chunks: seq<Chunk>)
    requires size >= 1 && |chunks| == NumChunks(|pages|, size)
    requires forall k :: 0 <= k < |chunks| ==> IsChunk(pages, size, template, k, chunks[k])
    ensures |chunks| > 0 ==> chunks[0].startPage == 1 && chunks[|chunks| - 1].endPage == |pages|
    ensures forall k :: 0 <= k < |chunks| - 1 ==> chunks[k + 1].startPage == chunks[k].endPage + 1
    ensures forall k :: 0 <= k < |chunks| ==> chunks[k].startPage <= chunks[k].endPage < chunks[k].startPage + size
  {
    forall k | 0 <= k < |chunks| - 1 ensures chunks[k + 1].startPage == chunks[k].endPage + 1 {
      ChunksAdjacent(|pages|, size, k);
    }
    forall k | 0 <= k < |chunks| ensures chunks[k].startPage <= chunks[k].endPage < chunks[k].startPage + size {
      ChunkBounds(|pages|, size, k);
    }
    if |chunks| > 0 {
      LastChunkEndsAtTotal(|pages|, size);
    }
  }

  /** The chunk loop of `process_pdf`. The chunks are numbered from 1, the
      first starts at page 1, each starts on the page after the previous one
      ended, the last ends on the last page, and each holds between one and
      `size` pages, joined with a blank line. */
  method BuildChunks(pages: seq<string>, size: nat, template: Option<string>) returns (chunks: seq<Chunk>)
    requires size >= 1
    ensures |chunks| == NumChunks(|pages|, size)
    ensures forall k :: 0 <= k < |chunks| ==> IsChunk(pages, size, template, k, chunks[k])
    ensures |chunks| > 0 ==> chunks[0].startPage == 1 && chunks[|chunks| - 1].endPage == |pages|
    ensures forall k :: 0 <= k < |chunks| - 1 ==> chunks[k + 1].startPage == chunks[k].endPage + 1
    ensures forall k :: 0 <= k < |chunks| ==> chunks[k].startPage <= chunks[k].endPage < chunks[k].startPage + size
  {
    var n := NumChunks(|pages|, size);
    chunks := [];
    var k := 0;
    while k < n
      invariant k <= n && |chunks| == k
      invariant forall j :: 0 <= j < k ==> IsChunk(pages, size, template, j, chunks[j])
    {
      chunks := chunks + [MakeChunk(pages, size, template, k)];
      k := k + 1;
    }
    ChunkRanges(pages, size, template, chunks);
  }

  // ---------------------------------------------------------------------
  // Asking the model
  // ---------------------------------------------------------------------

  /** The prompt `process_pdf` sends for chunk `k` (0-based) of `pages`. */
  function ChunkPrompt(pages: seq<string>, size: nat, template: Option<string>, k: nat): (r: string)
    requires size >= 1 && k < NumChunks(|pages|, size)
    ensures Contains(r, Join(ChunkPages(pages, size, k), PageSeparator))
  {
    var combined := Join(ChunkPages(pages, size, k), PageSeparator);
    PromptContainsText(template, combined, ChunkStart(size, k) + 1, ChunkEnd(|pages|, size, k));
    Prompt(template, combined, ChunkStart(size, k) + 1, ChunkEnd(|pages|, size, k))
  }

  /** The slot stored for one chunk, given what the model call returned
      (`None` when the reply had no choices): the answer when it is a
      non-empty string, `None` otherwise. */
  function Answer(reply: Option<string>): (r: Option<string>)
    ensures r.Some? <==> reply.Some? && |reply.value| > 0
    ensures r.Some? ==> r == reply
  {
    match reply
    case Some(s) => if |s| > 0 then Some(s) else None
    case None => None
  }

  /** `llm_responses_list`, built by asking the model once per chunk in chunk
      order. A call that raises (`Err`: the client failed on every retry, or
      the reply had no text) ends the loop, and `process_pdf` returns `None`;
      otherwise there is one slot per chunk, in chunk order. */
  function CollectResponses(chunks: seq<Chunk>, llm: string -> Result<Option<string>>): (r: Option<seq<Option<string>>>)
    ensures r.None? <==> exists k :: 0 <= k < |chunks| && llm(chunks[k].finalPrompt).Err?
    ensures r.Some? ==> |r.value| == |chunks|
    ensures r.Some? ==> forall k :: 0 <= k < |chunks| ==>
      llm(chunks[k].finalPrompt).Ok? && r.value[k] == Answer(llm(chunks[k].finalPrompt).value)
  {
    if |chunks| == 0 then Some([])
    else
      var init := chunks[..|chunks| - 1];
      var last := chunks[|chunks| - 1];
      assert forall k :: 0 <= k < |init| ==> init[k] == chunks[k];
      match CollectResponses(init, llm)
      case None => None
      case Some(rs) =>
        match llm(last.finalPrompt)
        case Err(_) => None
        case Ok(reply) => Some(rs + [Answer(reply)])
  }

  /** Some chunk's model call raises. */
  ghost predicate SomeCallRaises(pages: seq<string>, size: nat, template: Option<string>, llm: string -> Result<Option<string>>)
    requires size >= 1
  {
    exists k :: 0 <= k < NumChunks(|pages|, size) && llm(ChunkPrompt(pages, size, template, k)).Err?
  }

  /** `process_pdf`: `None` when the OCR extraction raises, returns no
      pages, the chunk size is zero (the division raises), or a model call
      raises; otherwise one slot per chunk, slot `k` holding the model's
      answer to chunk `k`'s prompt. */
  method ProcessPdf(
    pdfBytes: Option<seq<byte>>,
    chunkSize: nat,
    template: Option<string>,
    ocr: seq<byte> -> Option<OcrResponse>,
    llm: string -> Result<Option<string>>)
    returns (r: Option<seq<Option<string>>>)
    ensures r.None? <==>
      || ExtractTextFromPdf(pdfBytes, ocr).Err?
      || |ExtractTextFromPdf(pdfBytes, ocr).value| == 0
      || chunkSize == 0
      || SomeCallRaises(ExtractTextFromPdf(pdfBytes, ocr).value, chunkSize, template, llm)
    ensures r.Some? ==>
      && ExtractTextFromPdf(pdfBytes, ocr).Ok?
      && chunkSize >= 1
      && var pages := ExtractTextFromPdf(pdfBytes, ocr).value;
      && |r.value| == NumChunks(|pages|, chunkSize)
      && forall k :: 0 <= k < |r.value| ==>
           && llm(ChunkPrompt(pages, chunkSize, template, k)).Ok?
           && r.value[k] == Answer(llm(ChunkPrompt(pages, chunkSize, template, k)).value)
  {
    var extracted := ExtractTextFromPdf(pdfBytes, ocr);
    if extracted.Err? || |extracted.value| == 0 || chunkSize == 0 {
      return None;
    }
    var pages := extracted.value;
    var chunks := BuildChunks(pages, chunkSize, template);
    BuiltPrompts(pages, chunkSize, template, chunks);
    r := CollectResponses(chunks, llm);
    CollectFailsIff(pages, chunkSize, template, chunks, llm);
  }

  /** The chunks the loop builds carry the prompts `process_pdf` sends. */
  lemma BuiltPrompts(pages: seq<string>, size: nat, template: Option<string>, chunks: seq<Chunk>)
    requires size >= 1 && |chunks| == NumChunks(|pages|, size)
    requires forall k :: 0 <= k < |chunks| ==> IsChunk(pages, size, template, k, chunks[k])
    ensures forall k :: 0 <= k < |chunks| ==> chunks[k].finalPrompt == ChunkPrompt(pages, size, template, k)
  {
  }

  /** The loop over the built chunks fails exactly when the model call for
      some chunk's prompt raises. */
  lemma CollectFailsIff(pages: seq<string>, size: nat, template: Option<string>, chunks: seq<Chunk>, llm: string -> Result<Option<string>>)
    requires size >= 1 && |chunks| == NumChunks(|pages|, size)
    requires forall k :: 0 <= k < |chunks| ==> chunks[k].finalPrompt == ChunkPrompt(pages, size, template, k)
    ensures CollectResponses(chunks, llm).None? <==> SomeCallRaises(pages, size, template, llm)
  {
    if SomeCallRaises(pages, size, template, llm) {
      var k :| 0 <= k < NumChunks(|pages|, size) && llm(ChunkPrompt(pages, size, template, k)).Err?;
      assert llm(chunks[k].finalPrompt).Err?;
    }
  }

  /** A larger chunk size never makes more chunks. */
  lemma {:induction false} ChunkCountMonotone(total: nat, a: nat, b: nat)
    requires 1 <= a <= b
    ensures NumChunks(total, b) <= NumChunks(total, a)
  {
    var na := NumChunks(total, a);
    var nb := NumChunks(total, b);
    MulLeft(a, b, na);
    assert na * a <= na * b;
    if nb > na {
      MulLeft(na, nb - 1, b);
    }
  }

  /** Whatever the slider says, the number of chunks lies between that of
      the largest and that of the smallest chunk size. */
  lemma SliderChunkCount(total: nat, c: nat)
    requires IsSliderValue(c)
    ensures NumChunks(total, ChunkSizeMax) <= NumChunks(total, c) <= NumChunks(total, ChunkSizeMin)
  {
    ChunkCountMonotone(total, c, ChunkSizeMax);
    ChunkCountMonotone(total, ChunkSizeMin, c);
  }
}
