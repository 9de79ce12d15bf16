/** The rows the pages work on, as fetched from the database, and the
    JavaScript fallback operators the pages apply to their nullable fields. */
module Records {
  import opened Wrappers

  /** The tolerance the pages use to treat a money amount as zero. */
  const Epsilon: real := 0.009

  /** `a ?? b`: falls through only when `a` is null. */
  function Nullish<T>(a: Option<T>, b: T): T {
    if a.Some? then a.value else b
  }

  /** `a || b` on a nullable number: falls through when `a` is null or 0. */
  function OrElse(a: Option<real>, b: real): real {
    if a.Some? && a.value != 0.0 then a.value else b
  }

  /** A nullable string is truthy when it is present and not empty. */
  predicate Truthy(s: Option<string>) {
    s.Some? && |s.value| > 0
  }

  /** `s || d` on a nullable string. */
  function StrOr(s: Option<string>, d: string): string {
    if Truthy(s) then s.value else d
  }

  /** A row of `fee_types`: its default amount and its three optional dates,
      kept as the text the database returns. */
  datatype FeeType = FeeType(
    id: string,
    name: string,
    defaultAmount: real,
    scheduledDate: Option<string>,
    applicableFrom: Option<string>,
    applicableUntil: Option<string>)

  /** A row of `student_fee_types` (the link between a student and a fee type)
      with its fee type joined in, which may be missing. */
  datatype FeeLine = FeeLine(
    feeTypeId: string,
    assignedAmount: Option<real>,
    discount: Option<real>,
    discountDescription: Option<string>,
    netPayableAmount: Option<real>,
    feeType: Option<FeeType>)

  /** A row of `payments`; `time` is the instant its `date` denotes, in
      milliseconds. */
  datatype Payment = Payment(
    amountPaid: real,
    date: string,
    time: int,
    mode: string,
    receiptNumber: Option<string>)

  /** A row of `students` with its class name, fee lines and payments joined in. */
  datatype Student = Student(
    id: string,
    name: string,
    rollNo: string,
    classId: string,
    className: Option<string>,
    academicYear: string,
    totalFees: Option<real>,
    lines: seq<FeeLine>,
    payments: seq<Payment>)

  /** The default amount of a line's fee type, `fee_type?.default_amount`. */
  function DefaultOf(ft: Option<FeeType>): Option<real> {
    if ft.Some? then Some(ft.value.defaultAmount) else None
  }

  /** The amount of a payment. */
  function AmountOf(p: Payment): real {
    p.amountPaid
  }
}
