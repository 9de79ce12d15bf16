/** The master ledger page: each student's totals built line by line, the
    dynamic status, the search box, the school view's class rollup and the
    choice of a student's last payment. */
module MasterLedger {
  import opened Wrappers
  import opened Seqs
  import opened JsText
  import opened Records
  import opened NetPayable
  import opened Applicability
  import opened Status

  /** Whether fees mean the total assigned or the currently due amount. */
  datatype FeeView = TotalAssigned | CurrentlyDue

  /** What the ledger keeps about one fee line for display. `feeTypeId` is
      missing when the line has no fee type (or one with an empty id), where
      the page makes up a random `sft-…` id instead. */
  datatype FeeDetail = FeeDetail(
    feeTypeId: Option<string>,
    name: string,
    assignedAmount: real,
    discount: real,
    net: real,
    scheduledDate: Option<string>,
    applicableFrom: Option<string>,
    applicableUntil: Option<string>)

  /** A student as the ledger holds it after enrichment. */
  datatype Enriched = Enriched(
    student: Student,
    className: string,
    totalPaid: real,
    totalAssigned: real,
    currentlyDue: real,
    details: seq<FeeDetail>)

  /** `s || null` on a nullable string. */
  function OrNull(s: Option<string>): Option<string> {
    if Truthy(s) then s else None
  }

  /** The display detail of one fee line: the net shown is the ledger's net,
      the assigned amount less the discount. */
  function DetailOf(l: FeeLine): (d: FeeDetail)
    ensures d.net == d.assignedAmount - d.discount
    ensures d.net == LedgerNet(l)
    ensures l.feeType.None? ==> d.feeTypeId.None? && d.name == "Unknown Fee Type"
                                && d.scheduledDate.None? && d.applicableFrom.None? && d.applicableUntil.None?
  {
    var ft := l.feeType;
    var amount := Nullish(l.assignedAmount, Nullish(DefaultOf(ft), 0.0));
    var discount := OrElse(l.discount, 0.0);
    FeeDetail(
      if ft.Some? && ft.value.id != "" then Some(ft.value.id) else None,
      if ft.Some? && ft.value.name != "" then ft.value.name else "Unknown Fee Type",
      amount, discount, amount - discount,
      if ft.Some? then OrNull(ft.value.scheduledDate) else None,
      if ft.Some? then OrNull(ft.value.applicableFrom) else None,
      if ft.Some? then OrNull(ft.value.applicableUntil) else None)
  }

  /** The display details of the lines, one per line and in order (the
      inner `map`). */
  function Details(lines: seq<FeeLine>): (r: seq<FeeDetail>)
    ensures |r| == |lines|
    ensures forall k :: 0 <= k < |lines| ==> r[k] == DetailOf(lines[k])
    decreases |lines|
  {
    if |lines| == 0 then [] else Details(lines[..|lines| - 1]) + [DetailOf(lines[|lines| - 1])]
  }

  /** A line counts towards the currently due amount when it has a fee type
      that the ledger's date checks find due today. */
  function LedgerDueLine(today: int): FeeLine -> bool {
    (l: FeeLine) => l.feeType.Some? && DueOn(l.feeType.value, today, true)
  }

  /** What the ledger holds about a student after enrichment: total paid is
      the sum of the payments; total assigned adds every line's net, whatever
      its fee type or dates; currently due adds the nets of the lines that are
      due today; the class name defaults to "N/A". */
  function Enrichment(s: Student, today: int): Enriched {
    Enriched(s, StrOr(s.className, "N/A"), Sum(s.payments, AmountOf), Sum(s.lines, LedgerNet),
             Sum(Filter(s.lines, LedgerDueLine(today)), LedgerNet), Details(s.lines))
  }

  /** The inner `map` over a student's fee lines with its two accumulators:
      every line's net joins the total assigned, and the net of a line whose
      fee type the ledger's date checks find due joins the currently due
      amount; one display detail is built per line. */
  method LineTotals(lines: seq<FeeLine>, today: int)
    returns (totalAssigned: real, currentlyDue: real, details: seq<FeeDetail>)
    ensures totalAssigned == Sum(lines, LedgerNet)
    ensures currentlyDue == Sum(Filter(lines, LedgerDueLine(today)), LedgerNet)
    ensures details == Details(lines)
  {
    var totalAssignedForAllFeeComponents := 0.0;
    var totalCurrentlyDueAndApplicable := 0.0;
    details := [];
    var i := 0;
    while i < |lines|
      invariant 0 <= i <= |lines|
      invariant totalAssignedForAllFeeComponents == Sum(lines[..i], LedgerNet)
      invariant totalCurrentlyDueAndApplicable == Sum(Filter(lines[..i], LedgerDueLine(today)), LedgerNet)
      invariant details == Details(lines[..i])
    {
      var l := lines[i];
      var netPayableForThisFee, due := LineAmounts(l, today);
      ghost var assignedBefore, dueBefore := totalAssignedForAllFeeComponents, totalCurrentlyDueAndApplicable;
      totalAssignedForAllFeeComponents := totalAssignedForAllFeeComponents + netPayableForThisFee;
      if due {
        totalCurrentlyDueAndApplicable := totalCurrentlyDueAndApplicable + netPayableForThisFee;
      }
      EnrichStep(lines, i, today, due, netPayableForThisFee, assignedBefore, dueBefore, totalCurrentlyDueAndApplicable);
      details := details + [DetailOf(l)];
      i := i + 1;
    }
    assert lines[..i] == lines;
    totalAssigned, currentlyDue := totalAssignedForAllFeeComponents, totalCurrentlyDueAndApplicable;
  }

  /** One line of the inner `map`: its net (assigned amount, else the fee
      type's default, else 0, less the discount) and whether its fee type is
      due today; a line without a fee type is never due. */
  method LineAmounts(l: FeeLine, today: int) returns (netPayableForThisFee: real, due: bool)
    ensures netPayableForThisFee == LedgerNet(l)
    ensures due == LedgerDueLine(today)(l)
  {
    var assignedAmount := Nullish(l.assignedAmount, Nullish(DefaultOf(l.feeType), 0.0));
    var discount := OrElse(l.discount, 0.0);
    netPayableForThisFee := assignedAmount - discount;
    due := false;
    if l.feeType.Some? {
      due := LedgerLineDue(l.feeType.value, today);
    }
  }

  /** The enrichment of one student (the callback of the outer `map`). */
  method EnrichStudent(s: Student, today: int) returns (e: Enriched)
    ensures e == Enrichment(s, today)
  {
    var totalPaid := Sum(s.payments, AmountOf);
    var totalAssigned, currentlyDue, details := LineTotals(s.lines, today);
    e := Enriched(s, StrOr(s.className, "N/A"), totalPaid, totalAssigned, currentlyDue, details);
    IsEnrichment(e, s, today);
  }

  /** Adding line `i` to the running totals: its net always joins the total
      assigned, and joins the currently due amount when it is due. */
  lemma EnrichStep(lines: seq<FeeLine>, i: int, today: int, counted: bool, net: real, assignedSoFar: real, dueSoFar: real,
                   dueAfter: real)
    requires 0 <= i < |lines|
    requires counted == LedgerDueLine(today)(lines[i]) && net == LedgerNet(lines[i])
    requires assignedSoFar == Sum(lines[..i], LedgerNet)
    requires dueSoFar == Sum(Filter(lines[..i], LedgerDueLine(today)), LedgerNet)
    requires dueAfter == if counted then dueSoFar + net else dueSoFar
    ensures assignedSoFar + net == Sum(lines[..i + 1], LedgerNet)
    ensures dueAfter == Sum(Filter(lines[..i + 1], LedgerDueLine(today)), LedgerNet)
    ensures Details(lines[..i + 1]) == Details(lines[..i]) + [DetailOf(lines[i])]
  {
    var l, p := lines[i], LedgerDueLine(today);
    assert lines[..i + 1] == lines[..i] + [l];
    assert lines[..i + 1][..i] == lines[..i];
    SumSnoc(lines[..i], l, LedgerNet);
    FilterSnoc(lines[..i], l, p);
    var before := Filter(lines[..i], p);
    if counted {
      assert Filter(lines[..i + 1], p) == before + [l];
      SumSnoc(before, l, LedgerNet);
    } else {
      assert Filter(lines[..i + 1], p) == before;
    }
  }

  /** A record with the enrichment's fields is the enrichment. */
  lemma IsEnrichment(e: Enriched, s: Student, today: int)
    requires e.student == s && e.className == StrOr(s.className, "N/A")
    requires e.totalPaid == Sum(s.payments, AmountOf)
    requires e.totalAssigned == Sum(s.lines, LedgerNet)
    requires e.currentlyDue == Sum(Filter(s.lines, LedgerDueLine(today)), LedgerNet)
    requires e.details == Details(s.lines)
    ensures e == Enrichment(s, today)
  {
  }

  /** The enrichment of every fetched student, in order. */
  method EnrichAll(students: seq<Student>, today: int) returns (es: seq<Enriched>)
    ensures |es| == |students|
    ensures forall k :: 0 <= k < |students| ==> es[k] == Enrichment(students[k], today)
  {
    es := [];
    var i := 0;
    while i < |students|
      invariant 0 <= i <= |students|
      invariant |es| == i
      invariant forall k :: 0 <= k < i ==> es[k] == Enrichment(students[k], today)
    {
      var e := EnrichStudent(students[i], today);
      EnrichedSnoc(es, students, e, today);
      es := es + [e];
      i := i + 1;
    }
  }

  /** Appending the next student's enrichment extends the enriched prefix. */
  lemma EnrichedSnoc(es: seq<Enriched>, students: seq<Student>, e: Enriched, today: int)
    requires |es| < |students|
    requires forall k :: 0 <= k < |es| ==> es[k] == Enrichment(students[k], today)
    requires e == Enrichment(students[|es|], today)
    ensures forall k :: 0 <= k <= |es| ==> (es + [e])[k] == Enrichment(students[k], today)
  {
    forall k | 0 <= k <= |es|
      ensures (es + [e])[k] == Enrichment(students[k], today)
    {
      if k < |es| {
        assert (es + [e])[k] == es[k];
      }
    }
  }

  /** Total assigned splits into the currently due amount and the nets of the
      lines that are not due (including those without a fee type). */
  lemma AssignedIsDuePlusNotDue(lines: seq<FeeLine>, today: int)
    ensures Sum(lines, LedgerNet)
            == Sum(Filter(lines, LedgerDueLine(today)), LedgerNet)
               + Sum(Filter(lines, Not(LedgerDueLine(today))), LedgerNet)
  {
    SumFilterSplit(lines, LedgerNet, LedgerDueLine(today));
  }

  /** When every line has a fee type with no dates set, the currently due
      amount is the total assigned. */
  lemma UndatedLinesAllDue(lines: seq<FeeLine>, today: int)
    requires forall k :: 0 <= k < |lines| ==>
               lines[k].feeType.Some?
               && !Truthy(lines[k].feeType.value.scheduledDate)
               && !Truthy(lines[k].feeType.value.applicableFrom)
               && !Truthy(lines[k].feeType.value.applicableUntil)
    ensures Sum(Filter(lines, LedgerDueLine(today)), LedgerNet) == Sum(lines, LedgerNet)
  {
    FilterAll(lines, LedgerDueLine(today));
  }

  /** When no line's net is negative, the currently due amount is at most the
      total assigned. */
  lemma DueAtMostAssigned(lines: seq<FeeLine>, today: int)
    requires forall k :: 0 <= k < |lines| ==> LedgerNet(lines[k]) >= 0.0
    ensures Sum(Filter(lines, LedgerDueLine(today)), LedgerNet) <= Sum(lines, LedgerNet)
  {
    var rest := Filter(lines, Not(LedgerDueLine(today)));
    forall k | 0 <= k < |rest| ensures LedgerNet(rest[k]) >= 0.0 {
      assert rest[k] in lines;
    }
    SumNonNegative(rest, LedgerNet);
    AssignedIsDuePlusNotDue(lines, today);
  }

  /** Because nets are never clamped, a discount above the assigned amount on
      a line that is not due makes the currently due amount exceed the total
      assigned: here 100 is due out of a total of 50. */
  lemma DueCanExceedAssigned(today: int)
    ensures var plain := FeeType("t", "Tuition", 100.0, None, None, None);
            var lines := [FeeLine("t", Some(100.0), None, None, None, Some(plain)),
                          FeeLine("x", Some(0.0), Some(50.0), None, None, None)];
            Sum(lines, LedgerNet) == 50.0
            && Sum(Filter(lines, LedgerDueLine(today)), LedgerNet) == 100.0
  {
    var plain := FeeType("t", "Tuition", 100.0, None, None, None);
    var a := FeeLine("t", Some(100.0), None, None, None, Some(plain));
    var b := FeeLine("x", Some(0.0), Some(50.0), None, None, None);
    assert LedgerDueLine(today)(a) && !LedgerDueLine(today)(b);
    assert LedgerNet(a) == 100.0 && LedgerNet(b) == -50.0;
    TwoLines(a, b, LedgerDueLine(today));
  }

  /** Over two lines of which only the first is due: the nets add both, the
      due nets only the first. */
  lemma TwoLines(a: FeeLine, b: FeeLine, due: FeeLine -> bool)
    requires due(a) && !due(b)
    ensures Sum([a, b], LedgerNet) == LedgerNet(a) + LedgerNet(b)
    ensures Sum(Filter([a, b], due), LedgerNet) == LedgerNet(a)
  {
    assert [a, b] == [a] + [b];
    assert [a] == [] + [a];
    FilterSnoc([a], b, due);
    FilterSnoc([], a, due);
    SumSnoc([a], b, LedgerNet);
    SumSnoc([], a, LedgerNet);
  }

  /** The fees the selected view compares payments against. */
  function FeesFor(e: Enriched, view: FeeView): real {
    if view == TotalAssigned then e.totalAssigned else e.currentlyDue
  }

  /** `getDynamicStatus(student)` under the selected view. */
  function DynamicStatus(e: Enriched, view: FeeView): LedgerStatus {
    LedgerStatusOf(FeesFor(e, view), e.totalPaid)
  }

  /** The balance of a row: the selected fees less the total paid. */
  function Balance(e: Enriched, view: FeeView): real {
    FeesFor(e, view) - e.totalPaid
  }

  /** Whether an enriched student matches a lower-cased search term: by name,
      by a non-empty roll number or by a non-empty class name. */
  predicate MatchesTerm(e: Enriched, term: string) {
    term == ""
    || Contains(ToLower(e.student.name), term)
    || (e.student.rollNo != "" && Contains(ToLower(e.student.rollNo), term))
    || (e.className != "" && Contains(ToLower(e.className), term))
  }

  /** The search as a predicate on enriched students. */
  function SearchTest(term: string): Enriched -> bool {
    (x: Enriched) => MatchesTerm(x, term)
  }

  /** `filteredStudentsForDisplay`: an empty search term keeps every student;
      otherwise exactly the students matching the lower-cased term remain,
      each as often as listed and in the listed order. */
  function SearchFilter(es: seq<Enriched>, searchTerm: string): (r: seq<Enriched>)
    ensures searchTerm == "" ==> r == es
    ensures SelectedInOrder(r, es, SearchTest(ToLower(searchTerm)))
    ensures forall e :: e in r <==> e in es && MatchesTerm(e, ToLower(searchTerm))
    ensures |r| <= |es|
  {
    FilterInOrder(es, SearchTest(ToLower(searchTerm)));
    if searchTerm == "" then EmptySearchKeepsAll(es); Filter(es, SearchTest(ToLower(searchTerm)))
    else Filter(es, SearchTest(ToLower(searchTerm)))
  }

  /** The empty search term matches every student. */
  lemma EmptySearchKeepsAll(es: seq<Enriched>)
    ensures Filter(es, SearchTest(ToLower(""))) == es
  {
    assert ToLower("") == "";
    FilterAll(es, SearchTest(""));
  }

  /** Since a student without a class is given the name "N/A", searching for
      "n/a" finds every such student. */
  lemma SearchNAFindsUnclassed(es: seq<Enriched>, e: Enriched)
    requires e in es && e.className == "N/A"
    ensures e in SearchFilter(es, "n/a")
  {
    assert ToLower("n/a") == "n/a";
    assert ToLower("N/A") == "n/a";
    assert StartsWith("n/a", "n/a");
  }

  /** The class name of an enriched student, the key of the school view. */
  function ClassOf(e: Enriched): string {
    e.className
  }

  /** `Array.from(new Set(classNames)).sort(…)`: the distinct class names of
      the listed students, in ascending order. */
  function ClassNames(es: seq<Enriched>): (r: seq<string>)
    ensures StrictlySorted(r)
    ensures forall c :: c in r <==> exists k :: 0 <= k < |es| && es[k].className == c
    decreases |es|
  {
    if |es| == 0 then []
    else
      var front := es[..|es| - 1];
      var prev := ClassNames(front);
      assert forall k :: 0 <= k < |front| ==> front[k] == es[k];
      InsertSorted(es[|es| - 1].className, prev)
  }

  /** The listed students of one class, in order. */
  function Group(es: seq<Enriched>, c: string): (g: seq<Enriched>)
    ensures forall e :: e in g <==> e in es && e.className == c
  {
    forall e ensures KeyIs(ClassOf, c)(e) == (e.className == c) {
      KeyIsApplied(ClassOf, c, e);
    }
    Filter(es, KeyIs(ClassOf, c))
  }

  /** Every listed student falls in the group of its own class and in no
      other group of the school view. */
  lemma EachStudentInOneGroup(es: seq<Enriched>, e: Enriched, c: string)
    requires e in es
    ensures e.className in ClassNames(es)
    ensures e in Group(es, c) <==> c == e.className
  {
    var k :| 0 <= k < |es| && es[k] == e;
    assert es[k].className == e.className;
  }

  /** One row of the school view. */
  datatype ClassRow = ClassRow(
    className: string,
    size: nat,
    totalFees: real,
    totalPaid: real,
    unpaid: nat,
    partial: nat,
    paid: nat,
    noFeesDue: nat)

  /** Whether a student has the given status under the selected view. */
  function HasStatus(view: FeeView, st: LedgerStatus): Enriched -> bool {
    e => DynamicStatus(e, view) == st
  }

  /** The fees of a student under the selected view, the summand of a class. */
  function FeesOf(view: FeeView): Enriched -> real {
    e => FeesFor(e, view)
  }

  /** The total paid of a student. */
  function PaidOf(e: Enriched): real {
    e.totalPaid
  }

  /** One for every student. */
  function One(e: Enriched): real {
    1.0
  }

  /** A sum of ones counts the elements. */
  lemma {:induction false} SumOfOnes(g: seq<Enriched>)
    ensures Sum(g, One) == |g| as real
    decreases |g|
  {
    if |g| > 0 {
      SumOfOnes(g[..|g| - 1]);
    }
  }

  /** The four status counts of a group add up to its size: every student has
      exactly one status. */
  lemma {:induction false} StatusCountsAddUp(g: seq<Enriched>, view: FeeView)
    ensures |Filter(g, HasStatus(view, Unpaid))| + |Filter(g, HasStatus(view, PartiallyPaid))|
            + |Filter(g, HasStatus(view, Paid))| + |Filter(g, HasStatus(view, NoFeesDue))| == |g|
    decreases |g|
  {
    if |g| > 0 {
      var front, x := g[..|g| - 1], g[|g| - 1];
      StatusCountsAddUp(front, view);
      assert front + [x] == g;
      FilterSnoc(front, x, HasStatus(view, Unpaid));
      FilterSnoc(front, x, HasStatus(view, PartiallyPaid));
      FilterSnoc(front, x, HasStatus(view, Paid));
      FilterSnoc(front, x, HasStatus(view, NoFeesDue));
    }
  }

  /** The school-view row of class `c`: its size, its fee and paid totals over
      the group, and how many of its students have each status. */
  function ClassRowOf(es: seq<Enriched>, c: string, view: FeeView): ClassRow {
    var g := Group(es, c);
    ClassRow(c, |g|, Sum(g, FeesOf(view)), Sum(g, PaidOf),
             |Filter(g, HasStatus(view, Unpaid))|, |Filter(g, HasStatus(view, PartiallyPaid))|,
             |Filter(g, HasStatus(view, Paid))|, |Filter(g, HasStatus(view, NoFeesDue))|)
  }

  /** A class row's four status counts add up to its size. */
  lemma ClassRowCountsAddUp(es: seq<Enriched>, c: string, view: FeeView)
    ensures var row := ClassRowOf(es, c, view);
            row.unpaid + row.partial + row.paid + row.noFeesDue == row.size
  {
    StatusCountsAddUp(Group(es, c), view);
  }

  /** The rows for the given class names, in that order. */
  function ClassRows(es: seq<Enriched>, names: seq<string>, view: FeeView): (rows: seq<ClassRow>)
    ensures |rows| == |names|
    decreases |names|
  {
    if |names| == 0 then []
    else ClassRows(es, names[..|names| - 1], view) + [ClassRowOf(es, names[|names| - 1], view)]
  }

  /** Row `k` of the rows is the row of the `k`-th class name. */
  lemma {:induction false} ClassRowAt(es: seq<Enriched>, names: seq<string>, view: FeeView, k: int)
    requires 0 <= k < |names|
    ensures ClassRows(es, names, view)[k] == ClassRowOf(es, names[k], view)
    decreases |names|
  {
    if k < |names| - 1 {
      ClassRowAt(es, names[..|names| - 1], view, k);
    }
  }

  /** The school view: one row per distinct class name, classes ascending. */
  function SchoolView(es: seq<Enriched>, view: FeeView): seq<ClassRow> {
    ClassRows(es, ClassNames(es), view)
  }

  function RowFees(r: ClassRow): real {
    r.totalFees
  }

  function RowPaid(r: ClassRow): real {
    r.totalPaid
  }

  function RowSize(r: ClassRow): real {
    r.size as real
  }

  /** Summing a column of the rows is summing per group. */
  lemma {:induction false} RowsAreGroupTotals(es: seq<Enriched>, names: seq<string>, view: FeeView)
    ensures Sum(ClassRows(es, names, view), RowFees) == GroupTotal(names, es, ClassOf, FeesOf(view))
    ensures Sum(ClassRows(es, names, view), RowPaid) == GroupTotal(names, es, ClassOf, PaidOf)
    ensures Sum(ClassRows(es, names, view), RowSize) == GroupTotal(names, es, ClassOf, One)
    decreases |names|
  {
    if |names| > 0 {
      var front, c := names[..|names| - 1], names[|names| - 1];
      RowsAreGroupTotals(es, front, view);
      var row := ClassRowOf(es, c, view);
      SumSnoc(ClassRows(es, front, view), row, RowFees);
      SumSnoc(ClassRows(es, front, view), row, RowPaid);
      SumSnoc(ClassRows(es, front, view), row, RowSize);
      SumOfOnes(Group(es, c));
    }
  }

  /** The school view loses and double-counts nobody: its class fee totals add
      up to the fees of all listed students, its paid totals to all they paid,
      and its group sizes to the number of students. */
  lemma SchoolViewAddsUp(es: seq<Enriched>, view: FeeView)
    ensures Sum(SchoolView(es, view), RowFees) == Sum(es, FeesOf(view))
    ensures Sum(SchoolView(es, view), RowPaid) == Sum(es, PaidOf)
    ensures Sum(SchoolView(es, view), RowSize) == |es| as real
  {
    var names := ClassNames(es);
    forall i, j | 0 <= i < j < |names| ensures names[i] != names[j] {
      StrictlySortedDistinct(names, i, j);
    }
    forall k | 0 <= k < |es| ensures ClassOf(es[k]) in names {
      assert es[k].className in names;
    }
    RowsAreGroupTotals(es, names, view);
    GroupsPartition(names, es, ClassOf, FeesOf(view));
    GroupsPartition(names, es, ClassOf, PaidOf);
    GroupsPartition(names, es, ClassOf, One);
    SumOfOnes(es);
  }

  /** `payments.sort(by date descending)[0]`: the sort is stable, so the last
      payment is the earliest-listed one among those with the latest date. */
  function LastPayment(ps: seq<Payment>): (r: Option<Payment>)
    ensures r.None? <==> |ps| == 0
    ensures r.Some? ==> exists i :: 0 <= i < |ps| && ps[i] == r.value
                                    && (forall j :: 0 <= j < i ==> ps[j].time < r.value.time)
    ensures r.Some? ==> forall j :: 0 <= j < |ps| ==> ps[j].time <= r.value.time
    decreases |ps|
  {
    if |ps| == 0 then None
    else
      var rest := LastPayment(ps[1..]);
      if rest.None? || ps[0].time >= rest.value.time then Some(ps[0])
      else
        ghost var i :| 0 <= i < |ps[1..]| && ps[1..][i] == rest.value
                      && (forall j :: 0 <= j < i ==> ps[1..][j].time < rest.value.time);
        assert ps[i + 1] == rest.value;
        assert forall j :: 1 <= j < |ps| ==> ps[j] == ps[1..][j - 1];
        rest
  }
}
