/** The row normaliser and the export table of
    `DocumentExtractor.format_data_for_excel_or_csv`
    (utils/extraction_utils.py).

    The nested `page -> {bate: [repair orders]}` dictionary is flattened into
    one row per repair-order number, or one row with the empty string when a
    code has none. The export is described as the table of cells that is
    written (a header row, then one row per normalised row); turning that
    table into CSV text or an .xlsx workbook is not part of the model. */
module Export {
  import opened Wrappers
  import opened Text
  import opened Association

  /** One normalised row (`page_number`, `bate_number`,
      `repair_order_number`). */
  datatype Row = Row(pageNumber: int, bateNumber: string, repairOrderNumber: string)

  /** The repair-order value of the row written for a code without any. */
  const NoRepairOrder: string := ""

  /** The code's list is truthy and non-empty. */
  predicate HasOrders(e: CodeEntry) {
    e.repairOrders.Some? && |e.repairOrders.value| > 0
  }

  /** How many rows a code contributes: `max(1, len(repair_orders))`, a
      missing list counting as empty. */
  function Width(e: CodeEntry): (n: nat)
    ensures n >= 1
  {
    var len := if e.repairOrders.Some? then |e.repairOrders.value| else 0;
    if len > 1 then len else 1
  }

  /** The rows of one `bate_number -> repair_order_numbers` item: one per
      repair order in list order, or a single row with the empty sentinel. */
  function RowsForCode(page: int, e: CodeEntry): (rows: seq<Row>)
    ensures |rows| == Width(e)
    ensures forall k :: 0 <= k < |rows| ==> rows[k].pageNumber == page && rows[k].bateNumber == e.bates
    ensures HasOrders(e) ==>
      forall k :: 0 <= k < |rows| ==> rows[k].repairOrderNumber == e.repairOrders.value[k]
    ensures !HasOrders(e) ==> rows[0].repairOrderNumber == NoRepairOrder
  {
    if HasOrders(e) then
      var ros := e.repairOrders.value;
      seq(|ros|, k requires 0 <= k < |ros| => Row(page, e.bates, ros[k]))
    else
      [Row(page, e.bates, NoRepairOrder)]
  }

  /** The rows of every code of one page, in dictionary order. */
  function RowsForCodes(page: int, codes: seq<CodeEntry>): (rows: seq<Row>)
    ensures forall k :: 0 <= k < |rows| ==> rows[k].pageNumber == page
  {
    if |codes| == 0 then [] else RowsForCode(page, codes[0]) + RowsForCodes(page, codes[1..])
  }

  /** The number of rows a page contributes. */
  function CodesWidth(codes: seq<CodeEntry>): nat {
    if |codes| == 0 then 0 else Width(codes[0]) + CodesWidth(codes[1..])
  }

  /** The number of rows the data should produce:
      the sum of `max(1, len(repair_orders))` over all codes of all pages. */
  function RowCount(d: seq<PageEntry>): nat {
    if |d| == 0 then 0 else CodesWidth(d[0].codes) + RowCount(d[1..])
  }

  lemma {:induction false} RowsForCodesLength(page: int, codes: seq<CodeEntry>)
    ensures |RowsForCodes(page, codes)| == CodesWidth(codes)
  {
    if |codes| > 0 {
      RowsForCodesLength(page, codes[1..]);
    }
  }

  /** `formatted_data_list`: the rows of every page, in dictionary order.
      There is one row per repair order (one for a code without any), and
      every row carries the page it came from. */
  function FormatRows(d: seq<PageEntry>): (rows: seq<Row>)
    ensures |rows| == RowCount(d)
    ensures forall k :: 0 <= k < |rows| ==> rows[k].pageNumber in Pages(d)
  {
    if |d| == 0 then []
    else
      var head := RowsForCodes(d[0].page, d[0].codes);
      var rest := FormatRows(d[1..]);
      RowsForCodesLength(d[0].page, d[0].codes);
      assert forall k :: 0 <= k < |rest| ==> rest[k].pageNumber in Pages(d) by {
        assert forall q :: q in Pages(d[1..]) ==> q in Pages(d) by {
          forall q | q in Pages(d[1..]) ensures q in Pages(d) {
            var x :| 0 <= x < |d[1..]| && Pages(d[1..])[x] == q;
            assert Pages(d)[x + 1] == q;
          }
        }
      }
      assert d[0].page == Pages(d)[0];
      head + rest
  }

  /** Flattening distributes over concatenation of the page lists. */
  lemma {:induction false} FormatRowsAppend(a: seq<PageEntry>, b: seq<PageEntry>)
    ensures FormatRows(a + b) == FormatRows(a) + FormatRows(b)
  {
    if |a| > 0 {
      assert (a + b)[1..] == a[1..] + b;
      FormatRowsAppend(a[1..], b);
    } else {
      assert a + b == b;
    }
  }

  /** The codes of a page are flattened one after the other. */
  lemma {:induction false} RowsForCodesAppend(page: int, a: seq<CodeEntry>, b: seq<CodeEntry>)
    ensures RowsForCodes(page, a + b) == RowsForCodes(page, a) + RowsForCodes(page, b)
    decreases |a|
  {
    if |a| > 0 {
      assert (a + b)[1..] == a[1..] + b;
      RowsForCodesAppend(page, a[1..], b);
    } else {
      assert a + b == b;
    }
  }

  /** A single page contributes exactly the rows of its codes, and a single
      code on a page exactly its own rows. With `FormatRowsAppend` and
      `RowsForCodesAppend` this fixes every row and its position. */
  lemma {:induction false} FormatRowsSinglePage(page: int, codes: seq<CodeEntry>)
    ensures FormatRows([PageEntry(page, codes)]) == RowsForCodes(page, codes)
    ensures |codes| == 1 ==> FormatRows([PageEntry(page, codes)]) == RowsForCode(page, codes[0])
  {
    var d := [PageEntry(page, codes)];
    assert d[1..] == [];
    if |codes| == 1 {
      assert codes[1..] == [];
      assert RowsForCodes(page, codes) == RowsForCode(page, codes[0]) + [];
    }
  }

  /** A row is produced for a page exactly when one of its codes produces
      it. */
  lemma {:induction false} RowInRowsForCodesIff(page: int, codes: seq<CodeEntry>, row: Row)
    ensures row in RowsForCodes(page, codes) <==>
      exists j :: 0 <= j < |codes| && row in RowsForCode(page, codes[j])
    decreases |codes|
  {
    if |codes| > 0 {
      var rest := codes[1..];
      RowInRowsForCodesIff(page, rest, row);
      if exists j :: 0 <= j < |rest| && row in RowsForCode(page, rest[j]) {
        var j :| 0 <= j < |rest| && row in RowsForCode(page, rest[j]);
        assert rest[j] == codes[j + 1];
      }
      if exists j :: 0 <= j < |codes| && row in RowsForCode(page, codes[j]) {
        var j :| 0 <= j < |codes| && row in RowsForCode(page, codes[j]);
        assert j == 0 || rest[j - 1] == codes[j];
      }
    }
  }

  /** A row is in `formatted_data_list` exactly when some code of some page
      of the data produces it: nothing is invented and nothing is lost. */
  lemma {:induction false} RowInFormatRowsIff(d: seq<PageEntry>, row: Row)
    ensures row in FormatRows(d) <==>
      exists i :: 0 <= i < |d| && row in RowsForCodes(d[i].page, d[i].codes)
    decreases |d|
  {
    if |d| > 0 {
      var rest := d[1..];
      RowInFormatRowsIff(rest, row);
      assert FormatRows(d) == RowsForCodes(d[0].page, d[0].codes) + FormatRows(rest);
      if exists i :: 0 <= i < |rest| && row in RowsForCodes(rest[i].page, rest[i].codes) {
        var i :| 0 <= i < |rest| && row in RowsForCodes(rest[i].page, rest[i].codes);
        assert rest[i] == d[i + 1];
      }
      if exists i :: 0 <= i < |d| && row in RowsForCodes(d[i].page, d[i].codes) {
        var i :| 0 <= i < |d| && row in RowsForCodes(d[i].page, d[i].codes);
        assert i == 0 || rest[i - 1] == d[i];
      }
    }
  }

  // ---------------------------------------------------------------------
  // Regrouping: the rows lose nothing of well-formed data
  // ---------------------------------------------------------------------

  /** The shape of the data the per-page associator produces: one code per
      page, each with a non-empty list, and no page directly followed by
      itself. */
  predicate WellFormed(d: seq<PageEntry>) {
    && (forall k :: 0 <= k < |d| ==> |d[k].codes| == 1 && HasOrders(d[k].codes[0]))
    && (forall k :: 0 <= k < |d| - 1 ==> d[k].page != d[k + 1].page)
  }

  /** The end of the run of rows from `i` on that carry page `page`. */
  function PageRunEnd(rows: seq<Row>, page: int, i: nat): (n: nat)
    requires i <= |rows|
    ensures i <= n <= |rows|
    ensures forall k :: i <= k < n ==> rows[k].pageNumber == page
    ensures n == |rows| || rows[n].pageNumber != page
    decreases |rows| - i
  {
    if i < |rows| && rows[i].pageNumber == page then PageRunEnd(rows, page, i + 1) else i
  }

  /** A run that cannot be extended is the run `PageRunEnd` finds. */
  lemma PageRunEndUnique(rows: seq<Row>, page: int, i: nat, n: nat)
    requires i <= n <= |rows|
    requires forall k :: i <= k < n ==> rows[k].pageNumber == page
    requires n == |rows| || rows[n].pageNumber != page
    ensures PageRunEnd(rows, page, i) == n
    decreases |rows| - i
  {
    if i < n {
      PageRunEndUnique(rows, page, i + 1, n);
    }
  }

  /** The repair-order column of some rows. */
  function OrdersOf(rows: seq<Row>): (r: seq<string>)
    ensures |r| == |rows|
  {
    seq(|rows|, k requires 0 <= k < |rows| => rows[k].repairOrderNumber)
  }

  /** Rebuilds the nested dictionary from normalised rows: each run of rows
      with one page number becomes that page, with the first row's code and
      the run's repair orders. */
  function Regroup(rows: seq<Row>): (d: seq<PageEntry>)
    decreases |rows|
  {
    if |rows| == 0 then []
    else
      var page := rows[0].pageNumber;
      var n := PageRunEnd(rows, page, 0);
      [PageEntry(page, [CodeEntry(rows[0].bateNumber, Some(OrdersOf(rows[..n])))])] + Regroup(rows[n..])
  }

  /** The rows of well-formed data start with its first page. */
  lemma {:induction false} FormatRowsHead(d: seq<PageEntry>)
    requires WellFormed(d) && |d| > 0
    ensures var e := d[0].codes[0];
      FormatRows(d) == RowsForCode(d[0].page, e) + FormatRows(d[1..])
  {
    var e := d[0].codes[0];
    assert d[0].codes[1..] == [];
    assert RowsForCodes(d[0].page, d[0].codes) == RowsForCode(d[0].page, e) + [];
  }

  /** Flattening well-formed data loses nothing: regrouping the rows gives
      the data back. */
  lemma {:induction false} RegroupFormatRows(d: seq<PageEntry>)
    requires WellFormed(d)
    ensures Regroup(FormatRows(d)) == d
  {
    if |d| > 0 {
      var e := d[0].codes[0];
      FormatRowsHead(d);
      WellFormedTail(d);
      RegroupOneCode(d[0].page, e, FormatRows(d[1..]));
      RegroupFormatRows(d[1..]);
      assert d[0] == PageEntry(d[0].page, [CodeEntry(e.bates, e.repairOrders)]);
      assert d == [d[0]] + d[1..];
    }
  }

  /** The rest of well-formed data is well formed, and its rows start on
      a page other than the first. */
  lemma WellFormedTail(d: seq<PageEntry>)
    requires WellFormed(d) && |d| > 0
    ensures WellFormed(d[1..])
    ensures var tail := FormatRows(d[1..]);
      |tail| == 0 || tail[0].pageNumber != d[0].page
  {
    if |d| > 1 {
      FormatRowsHead(d[1..]);
    }
  }

  /** The rows of one code with a non-empty list, followed by rows of
      another page, regroup into that code's page first. */
  lemma {:induction false} RegroupOneCode(page: int, e: CodeEntry, tail: seq<Row>)
    requires HasOrders(e)
    requires |tail| == 0 || tail[0].pageNumber != page
    ensures Regroup(RowsForCode(page, e) + tail)
         == [PageEntry(page, [CodeEntry(e.bates, e.repairOrders)])] + Regroup(tail)
  {
    var head := RowsForCode(page, e);
    var rows := head + tail;
    PageRunEndUnique(rows, page, 0, |head|);
    assert rows[..|head|] == head;
    assert rows[|head|..] == tail;
    assert OrdersOf(head) == e.repairOrders.value;
  }

  /** The associator's output is well formed, so its rows can be regrouped
      into it: every page it keeps has its one code and a non-empty list,
      and its pages increase. */
  lemma {:induction false} AssociationIsWellFormed(d: seq<PageEntry>, outcomes: seq<PageOutcome>)
    requires forall k :: 0 <= k < |d| ==>
      1 <= d[k].page <= |outcomes| && EntryFor(d[k], outcomes[d[k].page - 1])
    requires forall k :: 0 <= k < |outcomes| ==> outcomes[k].InMap? ==> |outcomes[k].repairOrders| >= 1
    requires StrictlyIncreasing(Pages(d))
    ensures WellFormed(d)
    ensures Regroup(FormatRows(d)) == d
  {
    forall k | 0 <= k < |d| - 1 ensures d[k].page != d[k + 1].page {
      assert Pages(d)[k] < Pages(d)[k + 1];
    }
    RegroupFormatRows(d);
  }

  // ---------------------------------------------------------------------
  // The export table
  // ---------------------------------------------------------------------

  /** One cell as handed to the CSV writer or the worksheet. */
  datatype Cell = TextCell(text: string) | IntCell(n: int)

  datatype ExportFormat = Csv | Excel

  /** The header row followed by the body rows, and the format they are
      written in. */
  datatype ExportTable = ExportTable(format: ExportFormat, header: seq<string>, body: seq<seq<Cell>>)

  const Headers: seq<string> := ["Bate Number", "Repair Order Number", "Page Number"]

  /** The value a named column takes for a row; an unknown column reads as
      the empty string, as `row.get(key, "")` does. */
  function HeaderField(h: string, row: Row): Cell {
    if h == "Bate Number" then TextCell(row.bateNumber)
    else if h == "Repair Order Number" then TextCell(row.repairOrderNumber)
    else if h == "Page Number" then IntCell(row.pageNumber)
    else TextCell("")
  }

  /** The cells written for one row, in header order. */
  function ExportRow(row: Row): (cells: seq<Cell>)
    ensures |cells| == |Headers|
    ensures forall c :: 0 <= c < |Headers| ==> cells[c] == HeaderField(Headers[c], row)
  {
    [TextCell(row.bateNumber), TextCell(row.repairOrderNumber), IntCell(row.pageNumber)]
  }

  /** `(output_format or "").strip().upper() == "CSV"` selects CSV; anything
      else, `None` included, selects Excel. */
  function SelectFormat(outputFormat: Option<string>): (f: ExportFormat)
    ensures f == Csv <==> outputFormat.Some? && SpellsCsv(outputFormat.value)
  {
    var s := outputFormat.GetOr("");
    assert Upper(Strip(s)) == "CSV" <==> outputFormat.Some? && SpellsCsv(outputFormat.value) by {
      if outputFormat.Some? {
        SelectorIsCsvIff(s);
      } else {
        assert Strip("") == "";
      }
    }
    if Upper(Strip(s)) == "CSV" then Csv else Excel
  }

  /** `s` is "csv" in any mix of letter case, with whitespace of any kind
      around it. */
  ghost predicate SpellsCsv(s: string) {
    exists i :: SpellsCsvAt(s, i)
  }

  ghost predicate SpellsCsvAt(s: string, i: nat) {
    && i + 3 <= |s|
    && UpperChar(s[i]) == 'C' && UpperChar(s[i + 1]) == 'S' && UpperChar(s[i + 2]) == 'V'
    && (forall k :: 0 <= k < i ==> IsSpace(s[k]))
    && (forall k :: i + 3 <= k < |s| ==> IsSpace(s[k]))
  }

  /** An upper-case letter's preimages are that letter and its lower case,
      none of which is whitespace. */
  lemma UpperLetterIsNotSpace(c: char)
    requires UpperChar(c) == 'C' || UpperChar(c) == 'S' || UpperChar(c) == 'V'
    ensures !IsSpace(c)
  {
  }

  /** `s.strip().upper() == "CSV"` holds exactly for the padded,
      case-insensitive spellings of "csv". */
  lemma {:induction false} SelectorIsCsvIff(s: string)
    ensures Upper(Strip(s)) == "CSV" <==> SpellsCsv(s)
  {
    var r := Strip(s);
    var i: nat :| StripsTo(s, i, r);
    if Upper(r) == "CSV" {
      assert |r| == 3;
      assert Upper(r)[0] == 'C' && Upper(r)[1] == 'S' && Upper(r)[2] == 'V';
      assert SpellsCsvAt(s, i);
    }
    if SpellsCsv(s) {
      var i': nat :| SpellsCsvAt(s, i');
      UpperLetterIsNotSpace(s[i']);
      UpperLetterIsNotSpace(s[i' + 2]);
      assert i == i' && |r| == 3 by {
        assert i <= i' < i + |r|;
        assert s[i] == r[0];
        assert i >= i';
        assert s[i + |r| - 1] == r[|r| - 1];
        assert i + |r| <= i' + 3;
        assert i + |r| > i' + 2;
      }
      assert Upper(r) == "CSV";
    }
  }

  /** `None` selects Excel. */
  lemma NoneSelectsExcel()
    ensures SelectFormat(None) == Excel
  {
    assert Strip("") == "";
  }

  /** `DocumentExtractor.format_data_for_excel_or_csv`: the normalised rows
      and the table written out. The table has the fixed header, then one
      line per row whose cells are that row's bate number, repair order and
      page number; the format is CSV exactly for a padded, case-insensitive
      "csv". */
  function FormatDataForExcelOrCsv(d: seq<PageEntry>, outputFormat: Option<string>): (r: (seq<Row>, ExportTable))
    ensures r.0 == FormatRows(d)
    ensures |r.0| == RowCount(d)
    ensures WellFormed(d) ==> Regroup(r.0) == d
    ensures r.1.header == Headers
    ensures |r.1.body| == |r.0|
    ensures forall k, c :: 0 <= k < |r.0| && 0 <= c < |Headers| ==>
      |r.1.body[k]| == |Headers| && r.1.body[k][c] == HeaderField(Headers[c], r.0[k])
    ensures r.1.format == Csv <==> outputFormat.Some? && SpellsCsv(outputFormat.value)
  {
    var rows := FormatRows(d);
    var body := seq(|rows|, k requires 0 <= k < |rows| => ExportRow(rows[k]));
    assert WellFormed(d) ==> Regroup(rows) == d by {
      if WellFormed(d) {
        RegroupFormatRows(d);
      }
    }
    (rows, ExportTable(SelectFormat(outputFormat), Headers, body))
  }
}
