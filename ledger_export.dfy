/** The master ledger's CSV export: the header, one row per listed student,
    the quoting of cells that contain a comma, and the joining of cells with
    "," and of rows with a line break. */
module LedgerExport {
  import opened Wrappers
  import opened JsText
  import opened Records
  import opened Status
  import opened MasterLedger

  /** The two formatting calls the export makes: `toFixed(2)` on an amount
      and `new Date(date).toLocaleDateString()` on a payment date. */
  datatype Formats = Formats(money: real -> string, date: string -> string)

  /** The header row; the currency sign is exported as the page's source
      text has it (mis-encoded as "â‚¹"). */
  function Header(view: FeeView): (h: seq<string>)
    ensures |h| == 12
    ensures h[3] == (if view == TotalAssigned then "Total Assigned (â‚¹)" else "Total Due (â‚¹)")
  {
    ["Student Name", "Class", "Roll No",
     if view == TotalAssigned then "Total Assigned (â‚¹)" else "Total Due (â‚¹)",
     "Total Paid (â‚¹)", "Balance (â‚¹)",
     "Status",
     "Last Payment Date", "Last Payment Amount (â‚¹)", "Last Payment Mode",
     "Academic Year", "Last Receipt #"]
  }

  /** The status cell: "No Fees Due", or the status code with its first
      letter upper-cased and its first underscore made a space. */
  function StatusLabel(st: LedgerStatus): string {
    if st == NoFeesDue then "No Fees Due"
    else
      var code := LedgerStatusCode(st);
      [UpperChar(code[0])] + ReplaceFirst(code[1..], '_', ' ')
  }

  /** The labels of the statuses without an underscore in their code. */
  lemma StatusLabels()
    ensures StatusLabel(Paid) == "Paid"
    ensures StatusLabel(Unpaid) == "Unpaid"
    ensures StatusLabel(NoFeesDue) == "No Fees Due"
  {
    NoUnderscore("aid");
    NoUnderscore("npaid");
  }

  /** A string without an underscore is left alone by replacing its first
      underscore. */
  lemma NoUnderscore(s: string)
    requires '_' !in s
    ensures ReplaceFirst(s, '_', ' ') == s
  {
  }

  /** `s || fallback` on a string. */
  function OrText(s: string, fallback: string): string {
    if s != "" then s else fallback
  }

  /** The twelve cells of a student's row, in header order: the name, the
      class and roll number (or "N/A"), the fee figure of the view, the paid
      total and the balance between them, the status, the last payment's date,
      amount, mode and receipt (or "-"), and the academic year (or "-"). The
      last payment is the one the stable sort by descending date puts first. */
  function Row(e: Enriched, view: FeeView, fmt: Formats): (r: seq<string>)
    ensures |r| == 12
    ensures r[0] == e.student.name
    ensures r[6] == StatusLabel(DynamicStatus(e, view))
    ensures LastPayment(e.student.payments).None? ==> r[7] == "-" && r[8] == "-" && r[9] == "-" && r[11] == "-"
  {
    var last := LastPayment(e.student.payments);
    var fees := FeesFor(e, view);
    [e.student.name, OrText(e.className, "N/A"), OrText(e.student.rollNo, "N/A"),
     fmt.money(fees), fmt.money(e.totalPaid), fmt.money(fees - e.totalPaid),
     StatusLabel(DynamicStatus(e, view)),
     if last.Some? then fmt.date(last.value.date) else "-",
     if last.Some? then fmt.money(last.value.amountPaid) else "-",
     if last.Some? then ReplaceFirst(last.value.mode, '_', ' ') else "-",
     OrText(e.student.academicYear, "-"),
     if last.Some? then StrOr(last.value.receiptNumber, "-") else "-"]
  }

  /** The student cells and the money cells of a row: the class and roll
      number fall back to "N/A", and the balance is the view's fee figure
      less the paid total. */
  lemma RowAmounts(e: Enriched, view: FeeView, fmt: Formats)
    ensures var r := Row(e, view, fmt);
            && r[1] == (if e.className != "" then e.className else "N/A")
            && r[2] == (if e.student.rollNo != "" then e.student.rollNo else "N/A")
            && r[3] == fmt.money(if view == TotalAssigned then e.totalAssigned else e.currentlyDue)
            && r[4] == fmt.money(e.totalPaid)
            && r[5] == fmt.money((if view == TotalAssigned then e.totalAssigned else e.currentlyDue) - e.totalPaid)
  {
  }

  /** The last-payment cells of a row, with the academic year between them:
      the date, amount and mode (its first underscore made a space) of the
      last payment, and its receipt number or "-". */
  lemma RowLastPayment(e: Enriched, view: FeeView, fmt: Formats)
    ensures var r := Row(e, view, fmt);
            r[10] == (if e.student.academicYear != "" then e.student.academicYear else "-")
    ensures var r := Row(e, view, fmt);
            LastPayment(e.student.payments).Some? ==>
              var last := LastPayment(e.student.payments).value;
              r[7] == fmt.date(last.date) && r[8] == fmt.money(last.amountPaid)
              && r[9] == ReplaceFirst(last.mode, '_', ' ') && r[11] == StrOr(last.receiptNumber, "-")
  {
  }

  /** A cell containing a comma is wrapped in double quotes; any other cell
      is written as it is. */
  function CsvCell(c: string): (r: string)
    ensures ',' in c ==> |r| == |c| + 2 && r[0] == '"' && r[|r| - 1] == '"' && r[1..|r| - 1] == c
    ensures ',' !in c ==> r == c
  {
    if ',' in c then ['"'] + c + ['"'] else c
  }

  /** The cells of a row, each quoted as needed. */
  function QuotedCells(cells: seq<string>): (r: seq<string>)
    ensures |r| == |cells|
    ensures forall k :: 0 <= k < |cells| ==> r[k] == CsvCell(cells[k])
  {
    seq(|cells|, k requires 0 <= k < |cells| => CsvCell(cells[k]))
  }

  /** One line of the CSV: the quoted cells joined with ",". */
  function CsvLine(cells: seq<string>): string
    requires |cells| >= 1
  {
    Join(QuotedCells(cells), ',')
  }

  /** The lines of the listed students' rows, in order. */
  function RowLines(es: seq<Enriched>, view: FeeView, fmt: Formats): (r: seq<string>)
    ensures |r| == |es|
    ensures forall k :: 0 <= k < |es| ==> r[k] == CsvLine(Row(es[k], view, fmt))
  {
    seq(|es|, k requires 0 <= k < |es| => CsvLine(Row(es[k], view, fmt)))
  }

  /** The whole export: the header line, then one line per listed student,
      joined with line breaks. */
  function Csv(es: seq<Enriched>, view: FeeView, fmt: Formats): string {
    Join([CsvLine(Header(view))] + RowLines(es, view, fmt), '\n')
  }

  /** A line reads back into its cells when no cell has a comma (so none is
      quoted) and none has a line break. */
  lemma CsvLineSplits(cells: seq<string>)
    requires |cells| >= 1
    requires forall k :: 0 <= k < |cells| ==> ',' !in cells[k]
    ensures Split(CsvLine(cells), ',') == cells
  {
    assert QuotedCells(cells) == cells;
    SplitJoin(cells, ',');
  }

  /** A line has no line break when none of its cells has one. */
  lemma CsvLineSingle(cells: seq<string>)
    requires |cells| >= 1
    requires forall k :: 0 <= k < |cells| ==> '\n' !in cells[k]
    ensures '\n' !in CsvLine(cells)
  {
    var q := QuotedCells(cells);
    forall k | 0 <= k < |q| ensures '\n' !in q[k] {
      assert '\n' !in cells[k];
      if ',' in cells[k] {
        assert q[k] == ['"'] + cells[k] + ['"'];
      }
    }
    JoinAvoids(q, ',', '\n');
  }

  /** When no cell of any row has a line break, the export reads back, line
      by line, as the header line followed by one line per listed student in
      their order. */
  lemma CsvLines(es: seq<Enriched>, view: FeeView, fmt: Formats)
    requires forall k, j :: 0 <= k < |es| && 0 <= j < 12 ==> '\n' !in Row(es[k], view, fmt)[j]
    ensures Split(Csv(es, view, fmt), '\n') == [CsvLine(Header(view))] + RowLines(es, view, fmt)
    ensures |Split(Csv(es, view, fmt), '\n')| == |es| + 1
  {
    HeaderSingle(view);
    RowLinesSingle(es, view, fmt);
    LinesSingle(CsvLine(Header(view)), RowLines(es, view, fmt));
    SplitJoin([CsvLine(Header(view))] + RowLines(es, view, fmt), '\n');
  }

  /** The lines of an export without line breaks in any cell: none has a line break. */
  lemma LinesSingle(header: string, rows: seq<string>)
    requires '\n' !in header
    requires forall k :: 0 <= k < |rows| ==> '\n' !in rows[k]
    ensures forall k :: 0 <= k < |[header] + rows| ==> '\n' !in ([header] + rows)[k]
  {
    var lines := [header] + rows;
    forall k | 0 <= k < |lines| ensures '\n' !in lines[k] {
      if k > 0 {
        assert lines[k] == rows[k - 1];
      }
    }
  }

  /** The header line has no line break. */
  lemma HeaderSingle(view: FeeView)
    ensures '\n' !in CsvLine(Header(view))
  {
    var h := Header(view);
    assert forall j :: 0 <= j < 12 ==> '\n' !in h[j];
    CsvLineSingle(h);
  }

  /** No row line has a line break when no cell has one. */
  lemma RowLinesSingle(es: seq<Enriched>, view: FeeView, fmt: Formats)
    requires forall k, j :: 0 <= k < |es| && 0 <= j < 12 ==> '\n' !in Row(es[k], view, fmt)[j]
    ensures forall k :: 0 <= k < |es| ==> '\n' !in RowLines(es, view, fmt)[k]
  {
    forall k | 0 <= k < |es| ensures '\n' !in RowLines(es, view, fmt)[k] {
      var row := Row(es[k], view, fmt);
      assert forall j :: 0 <= j < |row| ==> '\n' !in row[j];
      CsvLineSingle(row);
    }
  }
}
