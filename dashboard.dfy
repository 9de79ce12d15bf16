/** The dashboard: the school-wide totals shown on its cards and the detail
    lists behind them (every student's assigned fees and status, and the
    students who still owe more than the tolerance). */
module Dashboard {
  import opened Wrappers
  import opened Seqs
  import opened Records
  import opened NetPayable
  import opened Status
  import opened RecordPayment

  /** The numbers on the dashboard's cards. */
  datatype Stats = Stats(
    studentCount: nat,
    totalAssignedFees: real,
    totalCollectedFees: real,
    totalOutstandingFees: real,
    totalCurrentlyDueFees: real)

  /** The cached assigned total of a student, `total_fees || 0`. */
  function CachedTotal(s: Student): real {
    OrElse(s.totalFees, 0.0)
  }

  /** What a student has paid, the sum of its payments. */
  function PaidBy(s: Student): real {
    Sum(s.payments, AmountOf)
  }

  /** What is currently due from a student, as the record-payment page
      computes it (the dashboard's copy of that code is the same). */
  function DueFrom(today: int): Student -> real {
    (s: Student) => Sum(Filter(s.lines, RecordDueLine(today)), RecordNet)
  }

  /** All payments of the students, in order. */
  function AllPayments(students: seq<Student>): seq<Payment>
    decreases |students|
  {
    if |students| == 0 then [] else AllPayments(students[..|students| - 1]) + students[|students| - 1].payments
  }

  /** `fetchDashboardAggregates`: all zero without a school or a user;
      otherwise the student count of the count query (0 when it has none),
      and, over the fetched students (none when the fetch failed), the sum of
      the cached totals, the sum of every payment, their difference, and the
      sum of what is currently due. */
  method SchoolTotals(schoolSelected: bool, userPresent: bool, studentCount: Option<nat>,
                      studentsWithDetails: Option<seq<Student>>, today: int)
    returns (stats: Stats)
    ensures !schoolSelected || !userPresent ==> stats == Stats(0, 0.0, 0.0, 0.0, 0.0)
    ensures schoolSelected && userPresent ==>
              var students := if studentsWithDetails.Some? then studentsWithDetails.value else [];
              stats.studentCount == Nullish(studentCount, 0)
              && stats.totalAssignedFees == Sum(students, CachedTotal)
              && stats.totalCollectedFees == Sum(students, PaidBy)
              && stats.totalOutstandingFees == stats.totalAssignedFees - stats.totalCollectedFees
              && stats.totalCurrentlyDueFees == Sum(students, DueFrom(today))
  {
    if !schoolSelected || !userPresent {
      return Stats(0, 0.0, 0.0, 0.0, 0.0);
    }
    var students := if studentsWithDetails.Some? then studentsWithDetails.value else [];
    var totalAssigned := 0.0;
    var totalCollected := 0.0;
    var totalCurrentlyDue := 0.0;
    var i := 0;
    while i < |students|
      invariant 0 <= i <= |students|
      invariant totalAssigned == Sum(students[..i], CachedTotal)
      invariant totalCollected == Sum(students[..i], PaidBy)
      invariant totalCurrentlyDue == Sum(students[..i], DueFrom(today))
    {
      var student := students[i];
      totalAssigned := totalAssigned + OrElse(student.totalFees, 0.0);
      ghost var collectedBefore := totalCollected;
      var j := 0;
      while j < |student.payments|
        invariant 0 <= j <= |student.payments|
        invariant totalCollected == collectedBefore + Sum(student.payments[..j], AmountOf)
      {
        var payment := student.payments[j];
        totalCollected := totalCollected + OrElse(Some(payment.amountPaid), 0.0);
        PaymentStep(student.payments, j);
        j := j + 1;
      }
      assert student.payments[..j] == student.payments;
      var due := CurrentlyDue(student.lines, today);
      totalCurrentlyDue := totalCurrentlyDue + due;
      StudentStep(students, i, today);
      i := i + 1;
    }
    assert students[..i] == students;
    stats := Stats(Nullish(studentCount, 0), totalAssigned, totalCollected, totalAssigned - totalCollected,
                   totalCurrentlyDue);
  }

  /** One more payment adds its amount to the sum. */
  lemma PaymentStep(payments: seq<Payment>, j: int)
    requires 0 <= j < |payments|
    ensures Sum(payments[..j + 1], AmountOf) == Sum(payments[..j], AmountOf) + OrElse(Some(payments[j].amountPaid), 0.0)
  {
    assert payments[..j + 1] == payments[..j] + [payments[j]];
    SumSnoc(payments[..j], payments[j], AmountOf);
  }

  /** One more student adds its cached total, its payments and what it
      currently owes to the three sums. */
  lemma StudentStep(students: seq<Student>, i: int, today: int)
    requires 0 <= i < |students|
    ensures Sum(students[..i + 1], CachedTotal) == Sum(students[..i], CachedTotal) + OrElse(students[i].totalFees, 0.0)
    ensures Sum(students[..i + 1], PaidBy) == Sum(students[..i], PaidBy) + Sum(students[i].payments, AmountOf)
    ensures Sum(students[..i + 1], DueFrom(today))
            == Sum(students[..i], DueFrom(today)) + Sum(Filter(students[i].lines, RecordDueLine(today)), RecordNet)
  {
    assert students[..i + 1] == students[..i] + [students[i]];
    SumSnoc(students[..i], students[i], CachedTotal);
    SumSnoc(students[..i], students[i], PaidBy);
    SumSnoc(students[..i], students[i], DueFrom(today));
  }

  /** The collected total is the sum of all the school's payments taken
      together, whichever student made them. */
  lemma {:induction false} CollectedIsAllPayments(students: seq<Student>)
    ensures Sum(students, PaidBy) == Sum(AllPayments(students), AmountOf)
    decreases |students|
  {
    if |students| > 0 {
      var init, s := students[..|students| - 1], students[|students| - 1];
      CollectedIsAllPayments(init);
      SumAppend(AllPayments(init), s.payments, AmountOf);
    }
  }

  /** A row of the assigned-fees and outstanding-fees lists. */
  datatype DetailRow = DetailRow(
    id: string,
    name: string,
    rollNo: string,
    className: string,
    totalFees: real,
    paid: real,
    outstanding: real,
    status: DetailStatus)

  /** One student's row: the cached total (`|| 0`), the paid total, what is
      outstanding (which may be negative) and the dashboard's status. */
  function DetailRowOf(s: Student): (r: DetailRow)
    ensures r.totalFees == CachedTotal(s) && r.paid == PaidBy(s)
    ensures r.outstanding == r.totalFees - r.paid
    ensures r.status == DetailStatusOf(r.totalFees, r.paid)
    ensures r.className == StrOr(s.className, "N/A")
  {
    var totalPaid := TotalPaid(s.payments);
    var assignedFees := OrElse(s.totalFees, 0.0);
    DetailRow(s.id, s.name, s.rollNo, StrOr(s.className, "N/A"), assignedFees, totalPaid,
              assignedFees - totalPaid, DetailStatusOf(assignedFees, totalPaid))
  }

  /** The assigned-fees list: one row per student, in order. */
  function DetailRows(students: seq<Student>): (r: seq<DetailRow>)
    ensures |r| == |students|
    ensures forall k :: 0 <= k < |students| ==> r[k] == DetailRowOf(students[k])
    decreases |students|
  {
    if |students| == 0 then [] else DetailRows(students[..|students| - 1]) + [DetailRowOf(students[|students| - 1])]
  }

  function OutstandingOf(r: DetailRow): real {
    r.outstanding
  }

  /** Whether a row owes more than the tolerance. */
  function Owes(r: DetailRow): bool {
    r.outstanding > Epsilon
  }

  /** The outstanding-fees list: the rows that owe more than the tolerance,
      in the order of the students. */
  function OutstandingRows(students: seq<Student>): (r: seq<DetailRow>)
    ensures SelectedInOrder(r, DetailRows(students), Owes)
    ensures forall x :: x in r <==> x in DetailRows(students) && x.outstanding > Epsilon
  {
    FilterInOrder(DetailRows(students), Owes);
    Filter(DetailRows(students), Owes)
  }

  /** What the rows owe adds up to the outstanding card: the cached totals
      less everything collected. */
  lemma {:induction false} RowsAddUpToOutstanding(students: seq<Student>)
    ensures Sum(DetailRows(students), OutstandingOf) == Sum(students, CachedTotal) - Sum(students, PaidBy)
    decreases |students|
  {
    if |students| > 0 {
      var init, s := students[..|students| - 1], students[|students| - 1];
      RowsAddUpToOutstanding(init);
      SumSnoc(DetailRows(init), DetailRowOf(s), OutstandingOf);
    }
  }

  /** A listed student owes more than the tolerance, so with no negative
      payment it has fees beyond the tolerance and is "Partial" or "Unpaid". */
  lemma OutstandingRowsUnsettled(students: seq<Student>, r: DetailRow)
    requires r in OutstandingRows(students)
    requires r.paid >= 0.0
    ensures r.totalFees > Epsilon
    ensures r.status == Partial || r.status == DetailUnpaid
  {
    var k :| 0 <= k < |students| && DetailRows(students)[k] == r;
  }

  /** The "Outstanding (Currently Due)" figure: currently due less collected,
      a missing figure counting as 0. */
  function DueOutstanding(totalCurrentlyDue: Option<real>, totalCollected: Option<real>): (r: real)
    ensures totalCurrentlyDue.None? && totalCollected.None? ==> r == 0.0
    ensures totalCurrentlyDue.Some? && totalCollected.Some? ==> r == totalCurrentlyDue.value - totalCollected.value
  {
    Nullish(totalCurrentlyDue, 0.0) - Nullish(totalCollected, 0.0)
  }
}
