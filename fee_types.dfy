/** The fee-types page: the "applicable from" date built from three form
    fields and read back into them by the edit form, the recomputation of a
    student's cached `total_fees`, the checkbox toggle and the form check. */
module FeeTypes {
  import opened Wrappers
  import opened Seqs
  import opened JsText
  import opened JsNumber
  import opened Calendar
  import opened Records
  import opened NetPayable
  import opened Applicability

  /** Whether the three fields read, through `parseInt(_, 10)`, as a year in
      1900..2200, a month index in 0..11 and a day of that month. */
  predicate ValidFields(day: string, monthIndex: string, year: string) {
    var d, m, y := ParseInt10(day), ParseInt10(monthIndex), ParseInt10(year);
    d.Some? && m.Some? && y.Some?
    && 1900 <= y.value <= 2200 && 0 <= m.value <= 11
    && 1 <= d.value <= DaysInMonth(m.value, y.value)
  }

  /** `formatFullDate(day, monthIndex, year)`: null unless the fields are a
      valid date, and then `YYYY-MM-DD` with the month index plus one, month
      and day zero-padded to two digits. */
  function FormatFullDate(day: string, monthIndex: string, year: string): Option<string> {
    var d, m, y := ParseInt10(day), ParseInt10(monthIndex), ParseInt10(year);
    if d.None? || m.None? || y.None? || y.value < 1900 || y.value > 2200 || m.value < 0 || m.value > 11 then None
    else if d.value < 1 || d.value > DaysInMonth(m.value, y.value) then None
    else Some(IsoDate(y.value, m.value + 1, d.value))
  }

  /** The fields format to a date exactly when they are a valid date, and
      then to the stored text of that date. */
  lemma FormatFullDateValid(day: string, monthIndex: string, year: string)
    ensures FormatFullDate(day, monthIndex, year).Some? <==> ValidFields(day, monthIndex, year)
    ensures ValidFields(day, monthIndex, year) ==>
              var d, m, y := ParseInt10(day).value, ParseInt10(monthIndex).value, ParseInt10(year).value;
              FormatFullDate(day, monthIndex, year) == Some(IsoDate(y, m + 1, d))
  {
  }

  /** `String(n)` of a `parseInt` result: "NaN" when nothing was read. */
  function ShowParsed(n: Option<int>): string {
    if n.Some? then ShowInt(n.value) else "NaN"
  }

  /** The three date fields of the create and edit forms. */
  datatype DateFields = DateFields(day: string, monthIndex: string, year: string)

  /** `openEditFeeModal` (and `handleDuplicateFeeType`): a set "applicable
      from" date enables the date fields and, when it splits into exactly
      three parts, fills them from it (the month part less one); otherwise
      the fields keep day 1 of the current month and year. */
  function EditFields(applicableFrom: Option<string>, currentMonth: string, currentYear: string): (r: (DateFields, bool))
    ensures r.1 <==> Truthy(applicableFrom)
    ensures (!Truthy(applicableFrom) || |Split(applicableFrom.value, '-')| != 3) ==>
              r.0 == DateFields("1", currentMonth, currentYear)
  {
    var defaults := DateFields("1", currentMonth, currentYear);
    if !Truthy(applicableFrom) then (defaults, false)
    else
      var parts := Split(applicableFrom.value, '-');
      if |parts| == 3 then (FieldsOfParts(parts), true) else (defaults, true)
  }

  /** The fields filled from the three parts of a date: the year part as it
      is, `String(parseInt(month, 10) - 1)` and `String(parseInt(day, 10))`. */
  function FieldsOfParts(parts: seq<string>): DateFields
    requires |parts| == 3
  {
    var m := ParseInt10(parts[1]);
    DateFields(ShowParsed(ParseInt10(parts[2])),
               ShowParsed(if m.Some? then Some(m.value - 1) else None),
               parts[0])
  }

  /** Round trip: a date the page stores reads back into fields holding the
      same numbers, which format to the same date again; and the ledger and
      the record-payment page read the stored text as that calendar day. */
  lemma FormatRoundTrip(day: string, monthIndex: string, year: string, currentMonth: string, currentYear: string)
    requires ValidFields(day, monthIndex, year)
    ensures var d, m, y := ParseInt10(day).value, ParseInt10(monthIndex).value, ParseInt10(year).value;
            FormatFullDate(day, monthIndex, year) == Some(IsoDate(y, m + 1, d))
            && m <= 11 && StoredDateRoundTrip(y, m, d, currentMonth, currentYear)
  {
    var d, m, y := ParseInt10(day).value, ParseInt10(monthIndex).value, ParseInt10(year).value;
    FormatFullDateValid(day, monthIndex, year);
    StoredDateReads(y, m, d, currentMonth, currentYear);
  }

  /** What the edit form and the date readers make of the stored date
      `IsoDate(y, m + 1, d)`: enabled fields holding the three numbers in
      plain decimal, which format to the same date, and that calendar day. */
  ghost predicate StoredDateRoundTrip(y: nat, m: nat, d: nat, currentMonth: string, currentYear: string)
    requires m <= 11
  {
    var s := IsoDate(y, m + 1, d);
    EditFields(Some(s), currentMonth, currentYear).1
    && EditFields(Some(s), currentMonth, currentYear).0 == DateFields(ShowNat(d), ShowNat(m), ShowNat(y))
    && FormatFullDate(ShowNat(d), ShowNat(m), ShowNat(y)) == Some(s)
    && ParseDateStrict(s) == Some(DaysFromCivil(y, m + 1, d))
    && ParseDateLoose(s) == Some(DaysFromCivil(y, m + 1, d))
  }

  /** The stored date of a valid day reads back as `StoredDateRoundTrip` says. */
  lemma StoredDateReads(y: nat, m: nat, d: nat, currentMonth: string, currentYear: string)
    requires 1900 <= y <= 2200 && m <= 11 && 1 <= d <= DaysInMonth(m, y)
    ensures StoredDateRoundTrip(y, m, d, currentMonth, currentYear)
  {
    StoredDateFields(y, m, d, currentMonth, currentYear);
    CanonicalFieldsFormat(y, m, d);
    ParseIsoDate(y, m + 1, d);
  }

  /** A stored date fills the edit form with its numbers in plain decimal. */
  lemma StoredDateFields(y: nat, m: nat, d: nat, currentMonth: string, currentYear: string)
    ensures EditFields(Some(IsoDate(y, m + 1, d)), currentMonth, currentYear).1
    ensures EditFields(Some(IsoDate(y, m + 1, d)), currentMonth, currentYear).0
            == DateFields(ShowNat(d), ShowNat(m), ShowNat(y))
  {
    var s := IsoDate(y, m + 1, d);
    assert |s| > 0;
    SplitIsoDate(y, m + 1, d);
    PaddedFields(y, m, d);
  }

  /** The fields read from the parts of a stored date. */
  lemma PaddedFields(y: nat, m: nat, d: nat)
    ensures FieldsOfParts([ShowNat(y), Pad2(m + 1), Pad2(d)]) == DateFields(ShowNat(d), ShowNat(m), ShowNat(y))
  {
    ParseShowNat(m + 1, 2);
    ParseShowNat(d, 2);
  }

  /** Fields in plain decimal that form a valid date format to that date. */
  lemma CanonicalFieldsFormat(y: nat, m: nat, d: nat)
    requires 1900 <= y <= 2200 && m <= 11 && 1 <= d <= DaysInMonth(m, y)
    ensures FormatFullDate(ShowNat(d), ShowNat(m), ShowNat(y)) == Some(IsoDate(y, m + 1, d))
  {
    ParseShowNatPlain(d);
    ParseShowNatPlain(m);
    ParseShowNatPlain(y);
    FormatOfNumbers(ShowNat(d), ShowNat(m), ShowNat(y), d, m, y);
  }

  /** Fields reading as a valid date format to that date. */
  lemma FormatOfNumbers(day: string, monthIndex: string, year: string, d: nat, m: nat, y: nat)
    requires ParseInt10(day) == Some(d) && ParseInt10(monthIndex) == Some(m) && ParseInt10(year) == Some(y)
    requires 1900 <= y <= 2200 && m <= 11 && 1 <= d <= DaysInMonth(m, y)
    ensures FormatFullDate(day, monthIndex, year) == Some(IsoDate(y, m + 1, d))
  {
  }

  /** `recalculateStudentTotalFees`' loop: the sum over the student's lines of
      `net ?? (assigned ?? default ?? 0) - (discount ?? 0)`. */
  method RecalculateTotal(lines: seq<FeeLine>) returns (calculatedTotal: real)
    ensures calculatedTotal == Sum(lines, RecalcNet)
  {
    calculatedTotal := 0.0;
    var i := 0;
    while i < |lines|
      invariant 0 <= i <= |lines|
      invariant calculatedTotal == Sum(lines[..i], RecalcNet)
    {
      var sft := lines[i];
      var netPayable := Nullish(sft.netPayableAmount,
                                Nullish(sft.assignedAmount, Nullish(DefaultOf(sft.feeType), 0.0)) - Nullish(sft.discount, 0.0));
      calculatedTotal := calculatedTotal + netPayable;
      assert lines[..i + 1] == lines[..i] + [sft];
      SumSnoc(lines[..i], sft, RecalcNet);
      i := i + 1;
    }
    assert lines[..i] == lines;
  }

  /** The total does not depend on the order of the lines: recomputing over
      the same rows fetched in another order gives the same value. */
  lemma RecalcOrderFree(a: seq<FeeLine>, b: seq<FeeLine>)
    requires Distinct(a) && Distinct(b)
    requires forall l :: l in a <==> l in b
    ensures Sum(a, RecalcNet) == Sum(b, RecalcNet)
  {
    SumDistinctSameSet(a, b, RecalcNet);
  }

  /** The elements other than `id`. */
  function Without(ids: seq<string>, id: string): (r: seq<string>)
    ensures forall x :: x in r <==> x in ids && x != id
  {
    Filter(ids, x => x != id)
  }

  /** `handleCheckboxToggle`: a listed id is removed, every occurrence of it;
      an unlisted one is appended. */
  function Toggle(id: string, ids: seq<string>): (r: seq<string>)
    ensures id in ids ==> id !in r && forall x :: x != id ==> (x in r <==> x in ids)
    ensures id !in ids ==> r == ids + [id]
  {
    if id in ids then Without(ids, id) else ids + [id]
  }

  /** Toggling the same id twice gives back the same set of ids; from an
      unticked id it gives back the very same list. */
  lemma ToggleTwice(id: string, ids: seq<string>)
    ensures forall x :: x in Toggle(id, Toggle(id, ids)) <==> x in ids
    ensures id !in ids ==> Toggle(id, Toggle(id, ids)) == ids
  {
    if id !in ids {
      var once := ids + [id];
      assert id in once;
      var twice := Without(once, id);
      assert twice == Filter(ids, x => x != id) + [] by {
        FilterSnoc(ids, id, x => x != id);
      }
      FilterAll(ids, x => x != id);
    }
  }

  /** Why the fee form is refused. */
  datatype FeeFormError = NameRequired | InvalidDefaultAmount

  /** `validateFeeForm`: the name must not be blank; a non-empty default
      amount must read, through `parseFloat`, as a number that is not
      negative. An empty amount is accepted (it is stored as 0). */
  function ValidateFeeForm(name: string, defaultAmount: string): (r: Option<FeeFormError>)
    ensures r == Some(NameRequired) <==> Trim(name) == ""
    ensures r == Some(InvalidDefaultAmount) <==>
              Trim(name) != "" && defaultAmount != ""
              && (IsNaN(ParseFloat(defaultAmount)) || BelowZero(ParseFloat(defaultAmount)))
    ensures r.None? && defaultAmount == "" ==> Trim(name) != ""
  {
    if Trim(name) == "" then Some(NameRequired)
    else if defaultAmount != "" && (IsNaN(ParseFloat(defaultAmount)) || BelowZero(ParseFloat(defaultAmount))) then
      Some(InvalidDefaultAmount)
    else None
  }

  /** The default amount a saved form stores:
      `default_amount ? parseFloat(default_amount) : 0`. */
  function StoredDefault(defaultAmount: string): Num {
    if defaultAmount != "" then ParseFloat(defaultAmount) else Fin(0.0)
  }

  /** A form accepted with an empty amount, or with what a number input can
      hold, stores a finite default that is not negative; of the negative
      inputs only "-0" (and its spellings such as "-0.00") gets through. */
  lemma AcceptedDefaultNotNegative(name: string, defaultAmount: string)
    requires defaultAmount == "" || HtmlFloat(defaultAmount)
    requires ValidateFeeForm(name, defaultAmount).None?
    ensures StoredDefault(defaultAmount).Fin? && StoredDefault(defaultAmount).v >= 0.0
    ensures defaultAmount != "" && defaultAmount[0] == '-' ==> StoredDefault(defaultAmount).v == 0.0
  {
    if defaultAmount != "" {
      NumberAgreesWithParseFloat(defaultAmount);
    }
  }
}
