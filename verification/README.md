# Bates / repair-order extraction, modelled in Dafny

The tool reads scanned legal PDFs and finds two kinds of identifiers:

- **AARON Bates numbers** such as `AARON00013020`;
- **repair-order numbers**, which are five- or six-digit numbers on a page, or `FOW` / `FOWS` followed by five digits in a plain-text file.

This project models the core of that tool and proves properties of the model:

- **The four regular expressions and `re.findall`** (`Patterns`). Each pattern has a declarative reading (`IsMatch`) and a scanner (`MatchAt`). The findall loop `FindAll` returns exactly the matches, left to right.
- **The matchers of `DocumentExtractor`** (`DocumentExtractor`):
  - AARON codes in page text and in file names;
  - repair-order numbers in page text;
  - `FOW` numbers in text files, after deleting whitespace and upper-casing.
- **The per-page associator** (`Association`). It builds the `page -> {bate: [repair orders]}` dictionary and the list of problem pages.
- **The export step** (`Export`):
  - the row normaliser, with its `""` sentinel;
  - the header and cell order of the written table;
  - the CSV/Excel selector.
- **The OCR side of `PdfProcessor`** (`Ocr`):
  - the checks on the uploaded bytes;
  - the validation of the OCR response into `**PAGE k**` labelled pages.
- **`process_pdf`** (`Chunking`):
  - cutting the pages into chunks and building each chunk's prompt;
  - asking the language model once per chunk;
  - the chunk-size slider.

`Wrappers` holds `Option` and `Result`. Raised exceptions become `Err(ValueError(message))` with the source's message, or `CollaboratorFailure` for a collaborator that raised. `Text` holds the string operations the code relies on: `str.upper`, `str.strip`, `in`, `join`, `replace`, `int()` and `str()` of decimals. `SplitOn` is not used by the code: it states what `replace` does, as splitting at the placeholder and joining.

Python values that are not strings are modelled by `DocumentExtractor.Value`. Python dictionaries are sequences of entries in insertion order. Three collaborators become function parameters:

- the OCR client;
- the language model;
- the prompt template, which is read from disk.

`utils/extraction_utils.py` holds two repair-order patterns. Line 17 compiles `\b\d{5}\b` and never uses it. The docstring at line 57 and the pattern searched at line 69 both say five or six digits, `\b\d{5,6}\b`. The model follows line 69.

## Model

| member | source | states |
|---|---|---|
| Patterns.MatchAt | utils/extraction_utils.py:16 | At one position, the scanner's answer is the only match the regular expression allows there. This holds for all four patterns: `\bAARON\d{8,}\b`, `AARON\d{7,}` ignoring case (line 45), `\b\d{5,6}\b` (line 69) and `FOWS?(\d{5})` (line 91). |
| Patterns.MatchesDisjoint | utils/extraction_utils.py:50 | Two matches of one pattern never overlap, so the leftmost, non-overlapping scan of `findall` loses no match. |
| Patterns.FindAll | utils/extraction_utils.py:50 | `findall` returns every match of the pattern, each exactly once, in left-to-right order, and nothing else. |
| Patterns.MatchListUnique | utils/extraction_utils.py:70 | There is only one left-to-right list of all the matches, so the characterisation pins the result of `findall` down. |
| Text.Strip | utils/extraction_utils.py:184 | `str.strip` removes exactly a whitespace prefix and a whitespace suffix, and the result neither starts nor ends with whitespace. |
| Text.SplitOn | main.py:561 | `str.split` pieces join back to the original string, and no piece contains the separator. |
| Text.ReplaceAll | main.py:561 | `str.replace` of every occurrence: replacing the placeholder by itself, or in a text that does not contain it, leaves the text unchanged. `ReplaceAllIsSplitJoin` characterises the result in general. |
| Text.ReplaceAllIsSplitJoin | main.py:561 | `str.replace` is the same as splitting at the placeholder and joining with the replacement. |
| Text.NatToStringRoundTrip | utils/ocr_utils.py:44-45 | The decimal rendering of a page number loses nothing: `int(str(n)) == n`. |
| DocumentExtractor.FileStem | utils/extraction_utils.py:40 | A name without a dot is unchanged. Otherwise the result is the text before the last dot, and no dot follows it. |
| DocumentExtractor.ExtractAaronCode | utils/extraction_utils.py:35-53 | A non-string raises `ValueError("Input must be a string.")`. In page text the result is, in order, every whole-word `AARON` with eight or more digits. In file-name mode the result is every match, in any case, of `AARON` with seven or more digits in the stem, upper-cased. Every result is `AARON` plus at least 8 (page text) or 7 (file name) digits. |
| DocumentExtractor.BodyMatchIsUpper | utils/extraction_utils.py:52-53 | In page text the final upper-casing changes nothing, and every match is an AARON code. |
| DocumentExtractor.FilenameMatchUpperIsCode | utils/extraction_utils.py:43-53 | A file-name match, upper-cased, is `AARON` followed by at least seven digits. |
| DocumentExtractor.ExtractRepairOrders | utils/extraction_utils.py:65-70 | A non-string raises `ValueError("Input text must be a string.")`. Otherwise the result is every whole word of five or six digits, in order, and each result is such a word. |
| DocumentExtractor.AaronDigitsAreNotRepairOrders | utils/extraction_utils.py:69 | No repair-order match starts inside an AARON code, so the digits of a Bates number are never reported as a repair order. |
| DocumentExtractor.FiveDigitMatches | utils/extraction_utils.py:97-99 | The validity check keeps only five-digit matches: every kept element is five digits, a one-element list is kept exactly when its element is five digits, and a list of five-digit matches is kept whole. |
| DocumentExtractor.FiveDigitMatchesMembers | utils/extraction_utils.py:97-99 | A string is among the kept matches exactly when it is a match and has five digits: every five-digit match is kept and nothing else is. |
| DocumentExtractor.FiveDigitMatchesAppend | utils/extraction_utils.py:97-99 | The check goes through the matches in order: the kept matches of two lists are those of the first, then those of the second. With the one-element case this fixes the result, repeats and order included. |
| DocumentExtractor.FiveDigitInts | utils/extraction_utils.py:96-101 | The conversion loop returns, in order, the decimal value of every five-digit match and nothing else, so each value lies in 0..99999. |
| DocumentExtractor.AllFiveDigitsKept | utils/extraction_utils.py:96-101 | When every match has five digits, none is dropped: entry `k` is the value of match `k`. |
| DocumentExtractor.FowGroupsAreFiveDigits | utils/extraction_utils.py:91-98 | Every group captured by `FOWS?(\d{5})` has five digits, so the validity check on line 98 never drops a match. |
| DocumentExtractor.ProcessingTxtFile | utils/extraction_utils.py:80-101 | Empty or non-string input gives `[]`. Otherwise whitespace and zero-width characters are deleted and the text is upper-cased. The result then holds, in order, the five-digit number after every `FOW` or `FOWS`, as integers in 0..99999. |
| DocumentExtractor.TxtDependsOnlyOnClean | utils/extraction_utils.py:85-93 | Two texts that clean to the same string give the same numbers. |
| DocumentExtractor.TxtIgnoresInsertedSpacing | utils/extraction_utils.py:83-85 | Inserting any whitespace or zero-width character anywhere leaves the numbers found unchanged. |
| DocumentExtractor.RemoveStripped | utils/extraction_utils.py:85 | The `re.sub` deletion leaves no whitespace or zero-width character and never lengthens the text; `RemoveStrippedSingle` (one character is deleted exactly when it is in the class, and kept otherwise) and `RemoveStrippedAppend` (the text is processed piecewise, in order) fix the result. |
| DocumentExtractor.Clean | utils/extraction_utils.py:85-88 | The searched text has no whitespace or zero-width character and no lower-case ASCII letter, so upper-casing it again changes nothing. `CleanSingle` (a character is deleted when it is in the class, and upper-cased otherwise) and `CleanAppend` (cleaning works piecewise, in order) fix it as the input with that class deleted and the rest upper-cased. |
| DocumentExtractor.RemoveStrippedSingle | utils/extraction_utils.py:85 | A single character is deleted exactly when it is whitespace or zero-width, and kept otherwise. |
| DocumentExtractor.CleanSingle | utils/extraction_utils.py:85-88 | Cleaning a single character deletes it when it is whitespace or zero-width, and upper-cases it otherwise. |
| DocumentExtractor.CleanAppend | utils/extraction_utils.py:85-88 | Cleaning works piecewise: the cleaned form of two texts one after the other is the two cleaned forms, in order. |
| DocumentExtractor.CleanIgnoresCase | utils/extraction_utils.py:85-88 | Texts that agree up to letter case clean to the same string. |
| DocumentExtractor.TxtIgnoresLetterCase | utils/extraction_utils.py:87-88 | Changing the case of any letters leaves the numbers found unchanged. |
| Association.ClassifyPage | utils/extraction_utils.py:113-139 | A non-string page is an issue carrying the raised `ValueError`. A page kept for the map carries an AARON code with eight or more digits and at least one repair-order number of five or six digits. |
| Association.IssueReasonIff | utils/extraction_utils.py:119-133 | An issue page is classified as having no AARON code exactly when there is no match, several exactly when there is more than one match, and no repair orders exactly when there is one AARON match but no repair-order match. |
| Association.PageInMapIff | utils/extraction_utils.py:115-135 | A page goes into the map exactly when its text holds exactly one whole-word AARON code and at least one repair-order number. Every other page is an issue. |
| Association.InMapCarriesExtraction | utils/extraction_utils.py:133-135 | A page in the map stores the single code and the complete repair-order list that the two extractors return for it. |
| Association.AssociateStep | utils/extraction_utils.py:111-143 | Storing one more page where its outcome says keeps the partition invariant. Each page seen so far is in exactly one collection, stored with its own outcome, and both collections stay in increasing page order. |
| Association.Partition | utils/extraction_utils.py:111-143 | The page loop puts page `k + 1` into exactly one of the two collections, as the `k`-th outcome says. |
| Association.ProcessStructuredOcrPdf | utils/extraction_utils.py:103-145 | Pages are numbered from 1. Each page is in the map if and only if its text qualifies, and in the issue list if and only if it does not. The two collections together hold every page once. Map entries store that page's code and repair orders. Both collections are in increasing page order. |
| Export.RowsForCodes | utils/extraction_utils.py:162-180 | Every row of a page's codes carries that page. Its length, order and content follow from `RowsForCodesLength`, `RowsForCodesAppend` and the one-code case of `FormatRowsSinglePage`, which says a single code's rows are exactly `RowsForCode`. |
| Export.RowsForCode | utils/extraction_utils.py:162-180 | A code with a non-empty list gives one row per repair order, in list order. A code with a missing or empty list gives a single row with the `""` sentinel. Every row carries the page and the code. |
| Export.FormatRows | utils/extraction_utils.py:158-180 | The number of rows is the sum of `max(1, len(list))` over all codes, and every row's page is one of the data's pages. |
| Export.RowsForCodesAppend | utils/extraction_utils.py:162-163 | The codes of one page are flattened one after the other: the rows of two code lists are the rows of the first, then those of the second. |
| Export.FormatRowsSinglePage | utils/extraction_utils.py:161-180 | A single page contributes exactly the rows of its codes, and a page with one code exactly that code's rows. With the two append lemmas this fixes every row's content and position from `RowsForCode`. |
| Export.RowInRowsForCodesIff | utils/extraction_utils.py:162-180 | A row is produced for a page exactly when one of its codes produces it. |
| Export.RowInFormatRowsIff | utils/extraction_utils.py:158-180 | A row is in the flattened list exactly when some page of the data produces it, so no row is invented and none is lost. |
| Export.FormatRowsAppend | utils/extraction_utils.py:161-162 | Rows are produced page by page, so the rows of concatenated data are the concatenated rows. |
| Export.RegroupFormatRows | utils/extraction_utils.py:158-180 | For data shaped as the associator builds it, regrouping the rows gives back the data: no page, code or repair order is lost or reordered. |
| Export.AssociationIsWellFormed | utils/extraction_utils.py:133-135 | The associator's map has that shape: one code per page, a non-empty list, and increasing pages. Its rows therefore regroup into it. |
| Export.ExportRow | utils/extraction_utils.py:193-195 | The cells of a row follow the header order: bate number, repair order number, page number. |
| Export.SelectFormat | utils/extraction_utils.py:184-186 | CSV is selected exactly when a format is given and it spells `csv` in any mix of case, surrounded by any whitespace. Anything else, `None` included, selects Excel. |
| Export.SelectorIsCsvIff | utils/extraction_utils.py:184-186 | `s.strip().upper() == "CSV"` holds exactly when `s` is `csv` in any mix of case, surrounded by any whitespace. |
| Export.NoneSelectsExcel | utils/extraction_utils.py:184 | A missing format selects Excel. |
| Export.FormatDataForExcelOrCsv | utils/extraction_utils.py:147-219 | The result holds the normalised rows, which are exactly `FormatRows` of the data, and the table written out. The row count is as above, and the rows regroup to well-formed data. The table has the fixed header and one line per row, its cells in header order. Its format is CSV exactly for a padded, case-insensitive `csv`. |
| Ocr.ValidateOcrResponse | utils/ocr_utils.py:26-51 | A falsy response, a response without `pages` and a response with no pages each raise their own `ValueError`. A response with at least one page always succeeds, with at most one entry per page and possibly none. The result lists the labelled markdown of exactly the pages that have markdown, in order, each numbered by its position in the response. |
| Ocr.Label | utils/ocr_utils.py:45 | The `**PAGE k**` label of a page can be read back into its page number and markdown. |
| Ocr.ParseLabelRoundTrip | utils/ocr_utils.py:44-45 | The `**PAGE k**` text loses nothing: the page number and the markdown can be read back. |
| Ocr.AllPagesLabelled | utils/ocr_utils.py:41-47 | When every page has markdown, entry `k` of the result is page `k + 1`, labelled. |
| Ocr.ExtractTextFromPdf | utils/ocr_utils.py:77-106 | Missing or empty bytes raise the "empty or None" `ValueError`. Bytes not starting with `%PDF` raise the "Invalid PDF format" `ValueError`. Otherwise a client failure is passed on and the client's response is validated. |
| Ocr.RejectedBytesIgnoreService | utils/ocr_utils.py:79-92 | Bytes rejected by the checks never reach the OCR client: the result is an error and does not depend on the client. |
| Ocr.SuccessNeedsPdfAndPages | utils/ocr_utils.py:79-102 | A successful extraction had `%PDF` bytes and a response with pages, and it returns at most one entry per page. |
| Chunking.NumChunks | main.py:523 | `(total + size - 1) // size` is the ceiling of `total / size`: the fewest chunks of `size` pages that hold all the pages. |
| Chunking.ChunkBounds | main.py:547-548 | Every chunk starts inside the page list and holds between one and `size` pages. |
| Chunking.ChunksAdjacent | main.py:547-548 | Each chunk starts where the previous one ended. |
| Chunking.ChunksCoverPages | main.py:546-556 | Concatenating the chunks' page slices, in order, gives back exactly the page list. |
| Chunking.Prompt | main.py:560-563 | A present, non-empty template containing `{ocr_text}` has every occurrence replaced by the chunk text. Otherwise the prompt is the header `# OCR TEXT DATA (Pages s-e)` followed by the chunk text. |
| Chunking.PromptContainsText | main.py:557-563 | Whichever way the prompt is built, the chunk's joined text occurs in it. |
| Chunking.BuildChunks | main.py:546-571 | Chunks are numbered from 1. The first starts at page 1 and the last ends at the last page. Each starts on the page after the previous one ended and holds between one and `size` pages, joined with a blank line, in a prompt built as above. |
| Chunking.ChunkPrompt | main.py:546-563 | The prompt of chunk `k` contains the chunk's pages joined with a blank line. |
| Chunking.Answer | main.py:596-601 | A chunk's slot holds the model's answer exactly when that answer is a non-empty string, and `None` otherwise. |
| Chunking.CollectResponses | main.py:589-601 | The loop fails exactly when the model call for some chunk raises. Otherwise there is one slot per chunk, in chunk order, each the answer to that chunk's prompt. |
| Chunking.CollectFailsIff | main.py:589-601 | Over the chunks that were built, the model loop fails exactly when the model call for some chunk's prompt raises. |
| Chunking.ProcessPdf | main.py:499-632 | The result is `None` exactly when the OCR extraction raises, returns no pages, the chunk size is zero, or the model call for some chunk raises. Otherwise there is one slot per chunk, and slot `k` answers the prompt of chunk `k`. |
| Chunking.ChunkCountMonotone | main.py:523 | A larger chunk size never makes more chunks. |
| Chunking.SliderChunkCount | main.py:344-351 | For any slider value (10 to 100 in steps of 10), the number of chunks lies between the counts for sizes 100 and 10. |

## Left out

- `\d`, `\w` and `str.upper` are modelled over ASCII only. Non-ASCII Unicode digits, letters and case mappings (for example `ſ` upper-casing to `S`) are not modelled. `\s` and `str.strip` use Python's full whitespace set.
- The check `len(pdf_bytes) == 0` at utils/ocr_utils.py:82-83 cannot be reached after `not pdf_bytes`, so it has no branch of its own.
- Ocr.ExtractTextFromPdf: models one attempt. The `tenacity` retry decorator calls a failing extraction five times and then raises its own `RetryError`. The model returns the error of one attempt; the caller actually receives `RetryError` wrapping it.
- The base64 wrapping of the OCR request, and the Mistral and OpenAI clients themselves, are outside the model. They are replaced by function parameters.
- The slider's default position, 50, is not modelled: every slider value is covered, and no property depends on which one is shown first.
- Chunking.ProcessPdf: negative chunk sizes are not modelled. The only caller passes the slider value, which is at least 10. A size of zero is modelled, because the division raises and the function returns `None`.
- `process_document_extraction` in utils/llm_utils.py is not part of this model. The language model is a function from prompt to a result: `Err` when the call raised (after its five attempts, tenacity raises `RetryError`), otherwise the returned text, or `None` when the reply had no choices.
- Writing the CSV text or the .xlsx workbook bytes is left out. The model stops at the table of cells handed to the writer. The worksheet title `Index` is part of that writing and is left out too.
- Streamlit UI, session state, progress bars, logging, `load_markdown_file`, `is_text_based_pdf`, the `__main__` block of utils/ocr_utils.py (lines 109-112), the module-level file read at utils/extraction_utils.py:246-253 and all of Extra.py are left out. None of them computes anything the core depends on, or they do I/O.
- Association.ProcessStructuredOcrPdf: takes the list under the `"Text"` key directly. The `KeyError` for a dictionary without that key is not modelled.
- No code in the repository combines `extract_aaron_code` in file-name mode with `processing_txt_file`: main.py imports only `PdfProcessor` and `LLMService` (main.py:6-7). The two are modelled separately, and no combined flow is modelled.
