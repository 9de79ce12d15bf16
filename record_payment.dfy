/** The record-payment page: the currently-due amount of a student, the paid
    total, the assigned total it shows, the student picker's filter and the
    checks and defaults applied when a payment is submitted. */
module RecordPayment {
  import opened Wrappers
  import opened Seqs
  import opened JsText
  import opened JsNumber
  import opened Records
  import opened NetPayable
  import opened Applicability

  /** Whether a line counts towards the currently-due amount on `today`: its
      fee type is joined in and due by this page's date reading. */
  function RecordDueLine(today: int): FeeLine -> bool {
    (l: FeeLine) => l.feeType.Some? && DueOn(l.feeType.value, today, false)
  }

  /** `calculateCurrentlyDueFees`: walks the lines, and adds
      `net ?? assigned ?? (default || 0)` for each line whose fee type is
      scheduled and in its window; a line without a fee type adds nothing. */
  method CurrentlyDue(lines: seq<FeeLine>, today: int) returns (totalCurrentlyDue: real)
    ensures totalCurrentlyDue == Sum(Filter(lines, RecordDueLine(today)), RecordNet)
  {
    totalCurrentlyDue := 0.0;
    var i := 0;
    while i < |lines|
      invariant 0 <= i <= |lines|
      invariant totalCurrentlyDue == Sum(Filter(lines[..i], RecordDueLine(today)), RecordNet)
    {
      var sft := lines[i];
      var netPayableForThisFee := Nullish(sft.netPayableAmount, Nullish(sft.assignedAmount, OrElse(DefaultOf(sft.feeType), 0.0)));
      var counted := false;
      if sft.feeType.Some? {
        var isDue := RecordLineDue(sft.feeType.value, today);
        if isDue {
          totalCurrentlyDue := totalCurrentlyDue + netPayableForThisFee;
        }
        counted := isDue;
      }
      DueStep(lines, i, today, counted);
      i := i + 1;
    }
    assert lines[..i] == lines;
  }

  /** One more line adds its amount exactly when it is counted. */
  lemma DueStep(lines: seq<FeeLine>, i: int, today: int, counted: bool)
    requires 0 <= i < |lines|
    requires counted == RecordDueLine(today)(lines[i])
    ensures Sum(Filter(lines[..i + 1], RecordDueLine(today)), RecordNet)
            == Sum(Filter(lines[..i], RecordDueLine(today)), RecordNet) + (if counted then RecordNet(lines[i]) else 0.0)
  {
    var l, p := lines[i], RecordDueLine(today);
    assert lines[..i + 1] == lines[..i] + [l];
    FilterSnoc(lines[..i], l, p);
    var before := Filter(lines[..i], p);
    if counted {
      assert Filter(lines[..i + 1], p) == before + [l];
      SumSnoc(before, l, RecordNet);
    } else {
      assert Filter(lines[..i + 1], p) == before;
    }
  }

  /** A line without a fee type, or whose fee type has a set date that does
      not read as a date, adds nothing; a fee type with no dates is due. */
  lemma DueLineCases(l: FeeLine, today: int)
    ensures l.feeType.None? ==> !RecordDueLine(today)(l)
    ensures (l.feeType.Some? && Truthy(l.feeType.value.scheduledDate)
             && ParseDateLoose(l.feeType.value.scheduledDate.value).None?) ==> !RecordDueLine(today)(l)
    ensures (l.feeType.Some? && Truthy(l.feeType.value.applicableFrom)
             && ParseDateLoose(l.feeType.value.applicableFrom.value).None?) ==> !RecordDueLine(today)(l)
    ensures (l.feeType.Some? && Truthy(l.feeType.value.applicableUntil)
             && ParseDateLoose(l.feeType.value.applicableUntil.value).None?) ==> !RecordDueLine(today)(l)
    ensures (l.feeType.Some? && !Truthy(l.feeType.value.scheduledDate) && !Truthy(l.feeType.value.applicableFrom)
             && !Truthy(l.feeType.value.applicableUntil)) ==> RecordDueLine(today)(l)
  {
  }

  /** Where the master ledger and this page compute the same currently-due
      amount: no stored net payable amount, no discount, and no date in more
      than three parts. */
  lemma {:induction false} SameDueAsLedger(lines: seq<FeeLine>, today: int)
    requires forall i :: 0 <= i < |lines| ==> lines[i].netPayableAmount.None? && OrElse(lines[i].discount, 0.0) == 0.0
    requires forall i :: 0 <= i < |lines| && lines[i].feeType.Some? ==> DatesInThreeParts(lines[i].feeType.value)
    ensures Sum(Filter(lines, RecordDueLine(today)), RecordNet)
            == Sum(Filter(lines, (l: FeeLine) => l.feeType.Some? && DueOn(l.feeType.value, today, true)), LedgerNet)
  {
    var strict := (l: FeeLine) => l.feeType.Some? && DueOn(l.feeType.value, today, true);
    forall i | 0 <= i < |lines|
      ensures RecordDueLine(today)(lines[i]) == strict(lines[i])
      ensures RecordNet(lines[i]) == LedgerNet(lines[i])
    {
      if lines[i].feeType.Some? {
        LedgerMatchesRecordPayment(lines[i].feeType.value, today);
      }
    }
    FilterSamePredicate(lines, RecordDueLine(today), strict);
    var due := Filter(lines, strict);
    forall k | 0 <= k < |due|
      ensures RecordNet(due[k]) == LedgerNet(due[k])
    {
      assert due[k] in lines;
    }
    SumSameFunction(due, RecordNet, LedgerNet);
  }

  /** Every set date of the fee type splits into at most three parts. */
  predicate DatesInThreeParts(ft: FeeType) {
    (Truthy(ft.scheduledDate) ==> |Split(ft.scheduledDate.value, '-')| <= 3)
    && (Truthy(ft.applicableFrom) ==> |Split(ft.applicableFrom.value, '-')| <= 3)
    && (Truthy(ft.applicableUntil) ==> |Split(ft.applicableUntil.value, '-')| <= 3)
  }

  /** The paid total, `payments.reduce((sum, p) => sum + p.amount_paid, 0) || 0`. */
  function TotalPaid(payments: seq<Payment>): (r: real)
    ensures r == Sum(payments, AmountOf)
  {
    OrElse(Some(Sum(payments, AmountOf)), 0.0)
  }

  /** With every payment positive, as this page records them, the paid total
      is positive exactly when there is a payment, and 0 without one. */
  lemma TotalPaidOfPositive(payments: seq<Payment>)
    requires forall i :: 0 <= i < |payments| ==> payments[i].amountPaid > 0.0
    ensures TotalPaid(payments) >= 0.0
    ensures TotalPaid(payments) > 0.0 <==> |payments| > 0
  {
    SumPositive(payments, AmountOf);
  }

  /** The assigned total shown, `total_fees || 0`. */
  function DisplayedAssigned(s: Student): (r: real)
    ensures s.totalFees.None? ==> r == 0.0
    ensures s.totalFees.Some? ==> r == s.totalFees.value
  {
    OrElse(s.totalFees, 0.0)
  }

  /** The assigned total shown is the cached value: the student's lines play
      no part in it. */
  lemma DisplayedAssignedIgnoresLines(s: Student, lines: seq<FeeLine>)
    ensures DisplayedAssigned(s.(lines := lines)) == DisplayedAssigned(s)
  {
  }

  /** A student of the picker with the three amounts the page derives. */
  datatype ListItem = ListItem(student: Student, totalAssignedFees: real, totalPaidAmount: real, currentlyDueFees: real)

  /** The picker entry of one fetched student. */
  method EnrichListItem(s: Student, today: int) returns (item: ListItem)
    ensures item.student == s
    ensures item.totalAssignedFees == DisplayedAssigned(s)
    ensures item.totalPaidAmount == Sum(s.payments, AmountOf)
    ensures item.currentlyDueFees == Sum(Filter(s.lines, RecordDueLine(today)), RecordNet)
  {
    var currentlyDue := CurrentlyDue(s.lines, today);
    item := ListItem(s, OrElse(s.totalFees, 0.0), TotalPaid(s.payments), currentlyDue);
  }

  /** The picker's test of one student: its name or (non-empty) roll number
      includes the search term, compared in lower case, and the class filter
      is empty or is the student's class. */
  predicate KeepInPicker(s: Student, searchTerm: string, classFilter: string) {
    var term := ToLower(searchTerm);
    (Contains(ToLower(s.name), term) || (s.rollNo != "" && Contains(ToLower(s.rollNo), term)))
    && (classFilter == "" || s.classId == classFilter)
  }

  /** The picker's test as a predicate on students. */
  function PickerTest(searchTerm: string, classFilter: string): Student -> bool {
    (s: Student) => KeepInPicker(s, searchTerm, classFilter)
  }

  /** `filteredStudentsForCombobox`: everyone when both the term and the
      class filter are empty, otherwise the students that pass, each as often
      as fetched and in the fetched order. */
  function PickerStudents(all: seq<Student>, searchTerm: string, classFilter: string): (r: seq<Student>)
    ensures searchTerm == "" && classFilter == "" ==> r == all
    ensures SelectedInOrder(r, all, PickerTest(searchTerm, classFilter))
    ensures forall s :: s in r <==> s in all && KeepInPicker(s, searchTerm, classFilter)
  {
    FilterInOrder(all, PickerTest(searchTerm, classFilter));
    if searchTerm == "" && classFilter == "" then PickerShortcutAgrees(all); all
    else Filter(all, PickerTest(searchTerm, classFilter))
  }

  /** The shortcut taken for an empty term and class filter changes nothing:
      the filter keeps every student then anyway. */
  lemma PickerShortcutAgrees(all: seq<Student>)
    ensures Filter(all, PickerTest("", "")) == all
  {
    forall i | 0 <= i < |all|
      ensures KeepInPicker(all[i], "", "")
    {
      ContainsEmpty(ToLower(all[i].name));
    }
    FilterAll(all, PickerTest("", ""));
  }

  /** A class filter keeps the students of that class only. */
  lemma PickerClassOnly(all: seq<Student>, searchTerm: string, classFilter: string)
    requires classFilter != ""
    ensures forall s :: s in PickerStudents(all, searchTerm, classFilter) ==> s.classId == classFilter
  {
  }

  /** Why a payment is refused. */
  datatype PaymentError = NoStudent | NoSchool | InvalidAmount

  /** The row inserted into `payments`. */
  datatype PaymentInsert = PaymentInsert(
    studentId: string,
    schoolId: string,
    amountPaid: Num,
    date: string,
    mode: string,
    description: Option<string>,
    receiptNumber: string)

  /** The receipt number stored: the trimmed manual number when it is not
      empty, otherwise `R-` and the current time in milliseconds. */
  function ReceiptNumber(manual: string, nowMs: int): (r: string)
    ensures Trim(manual) != "" ==> r == Trim(manual)
    ensures Trim(manual) == "" ==> r == "R-" + ShowInt(nowMs)
  {
    if Trim(manual) != "" then Trim(manual) else "R-" + ShowInt(nowMs)
  }

  /** A receipt number is never empty, and a generated one starts with `R-`. */
  lemma ReceiptNeverEmpty(manual: string, nowMs: int)
    ensures ReceiptNumber(manual, nowMs) != ""
    ensures Trim(manual) == "" ==> ReceiptNumber(manual, nowMs)[..2] == "R-"
  {
  }

  /** `!amountPaid || isNaN(Number(amountPaid)) || Number(amountPaid) <= 0`. */
  predicate AmountRefused(amountPaid: string) {
    amountPaid == "" || IsNaN(ToNumber(amountPaid)) || AtMostZero(ToNumber(amountPaid))
  }

  /** `handleSubmitPayment`: refused without a student, without a student id
      or a school, or with an amount that is empty, not a number or not
      positive; otherwise the payment row, with the amount read by
      `parseFloat`, the description trimmed (null when empty) and the
      receipt number filled in. */
  function SubmitPayment(student: Option<Student>, schoolId: Option<string>, amountPaid: string, mode: string,
                         description: string, manualReceipt: string, nowMs: int, nowIso: string)
    : (r: Result<PaymentInsert, PaymentError>)
    ensures r == Failure(NoStudent) <==> student.None?
    ensures r == Failure(NoSchool) <==> student.Some? && (student.value.id == "" || !Truthy(schoolId))
    ensures r == Failure(InvalidAmount) <==>
              student.Some? && student.value.id != "" && Truthy(schoolId) && AmountRefused(amountPaid)
    ensures r.Success? ==> r.value.studentId == student.value.id && r.value.schoolId == schoolId.value
                           && r.value.amountPaid == ParseFloat(amountPaid)
                           && r.value.receiptNumber == ReceiptNumber(manualReceipt, nowMs)
                           && r.value.description == (if Trim(description) != "" then Some(Trim(description)) else None)
  {
    if student.None? then Failure(NoStudent)
    else if student.value.id == "" || !Truthy(schoolId) then Failure(NoSchool)
    else if AmountRefused(amountPaid) then Failure(InvalidAmount)
    else
      var desc := if Trim(description) != "" then Some(Trim(description)) else None;
      Success(PaymentInsert(student.value.id, schoolId.value, ParseFloat(amountPaid), nowIso, mode, desc,
                            ReceiptNumber(manualReceipt, nowMs)))
  }

  /** From a number input, an accepted payment stores a positive amount: the
      amount `parseFloat` stores is the one `Number` checked. */
  lemma AcceptedAmountPositive(student: Option<Student>, schoolId: Option<string>, amountPaid: string, mode: string,
                               description: string, manualReceipt: string, nowMs: int, nowIso: string)
    requires HtmlFloat(amountPaid)
    requires SubmitPayment(student, schoolId, amountPaid, mode, description, manualReceipt, nowMs, nowIso).Success?
    ensures SubmitPayment(student, schoolId, amountPaid, mode, description, manualReceipt, nowMs, nowIso).value.amountPaid
            == ToNumber(amountPaid)
    ensures ToNumber(amountPaid).Fin? && ToNumber(amountPaid).v > 0.0
  {
    AcceptedAmount(amountPaid);
  }

  /** A number-input amount that passes the check is read alike by `Number`
      and `parseFloat`, as a positive finite number. */
  lemma AcceptedAmount(amountPaid: string)
    requires amountPaid == "" || HtmlFloat(amountPaid)
    requires !AmountRefused(amountPaid)
    ensures ParseFloat(amountPaid) == ToNumber(amountPaid)
    ensures ToNumber(amountPaid).Fin? && ToNumber(amountPaid).v > 0.0
  {
    NumberAgreesWithParseFloat(amountPaid);
  }
}
