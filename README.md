# School fee ledger: a verified model of its fee arithmetic

The application is a school administration dashboard. Students have fee
lines: a fee type assigned to them, with its own amount, a discount, and
optionally a stored net payable amount. The fee type carries a default
amount, a scheduled date and an applicable-from / applicable-until window.
Payments are recorded against students, and every student row caches a
`total_fees` figure. Six pages each redo part of that arithmetic, each
slightly differently:

- the master ledger enriches every student with total assigned, currently
  due and total paid, classifies them, groups them by class, and exports a
  CSV;
- the fee-types page formats and parses the window dates, decides whether a
  fee type is currently applicable, assigns a fee type to a set of students
  (an add/delete diff against the existing rows) and recomputes the cached
  totals;
- the record-payment page computes what is currently due, filters the
  student picker and validates and builds a payment;
- the dashboard sums school-wide totals and lists per-student detail rows
  with their own status chain and an outstanding filter;
- student registration builds the academic-year list, the registration
  total and the fee links to insert, shows line details and keeps the
  discount and description entries;
- the collections report turns a daily, weekly, monthly, quarterly or yearly
  choice into a `[startDate, endDate]` range and totals the payments in it.

The model keeps each page's variant separate and proves where the variants
agree and where, on which inputs, they do not.

## Layout

These modules model JavaScript and calendar behaviour the pages depend on:

- `Wrappers` holds `Option` and `Result`.
- `Seqs` holds sums and filters over sequences.
- `JsText` models `trim`, `split`, `includes`, `padStart` and string order.
- `JsNumber` models `parseInt`, `parseFloat`, `Number` and the strings a
  number input yields.
- `Calendar` models `Date.UTC` and its month and day rollover, and the
  Gregorian calendar.
- `Records` holds the fee line, fee type, student and payment records.

These modules each model one component that several pages share:

- `Applicability` holds the three "currently due" evaluators.
- `NetPayable` holds the four net-payable fallback chains.
- `Status` holds the two status classifiers and the balance tone.

These modules each model one page:

- `MasterLedger`
- `LedgerExport` models the master ledger's CSV.
- `FeeTypes`
- `FeeAssignment` models the fee-types page's assignment diff on a
  `FeeStore` class.
- `RecordPayment`
- `Dashboard`
- `StudentRegistration`
- `Collections`

Code that mutates as it goes is modelled as methods with loops over explicit
state, each proved against a specification function:

- the enrichment accumulators;
- the flag chains of the date checks;
- the recalculation loop;
- the diff's pushes;
- the dashboard's nested loops;
- the academic-year loop;
- the collections switch.

The table of rows is a class, `FeeAssignment.FeeStore`, whose methods update
its fields. Everything else is functions and lemmas.

Money is exact `real`; the tolerance `0.009` is the constant `Records.Epsilon`.
"Today" is a day number counted from 1970-01-01, passed in as a parameter.

## Model

| member | source | states |
|---|---|---|
| Applicability.LedgerLineDue | app/dashboard/master-ledger/page.tsx:164-200 | The ledger's flags give "due" exactly when every set date splits into exactly three parts that read as a day, with scheduled ≤ today, from ≤ today and today ≤ until. |
| Applicability.ScheduledCheck | app/dashboard/master-ledger/page.tsx:168-176 | The ledger's scheduled flag: true without a date, otherwise true exactly when the date has three parts reading as a day no later than today. |
| Applicability.FromCheck | app/dashboard/master-ledger/page.tsx:178-186 | The ledger's from flag: true without a date, otherwise true exactly when the date has three parts reading as a day no later than today (inclusive). |
| Applicability.UntilCheck | app/dashboard/master-ledger/page.tsx:188-196 | The ledger's until flag: true without a date, otherwise true exactly when the date has three parts reading as a day not before today (inclusive). |
| Applicability.RecordLineDue | app/dashboard/record-payment/page.tsx:79-107 | The record-payment and dashboard flags: a set date that reads as NaN, or lies on the wrong side of today, clears its flag. The first three parts of a date are read, however many there are. |
| Applicability.IsCurrentlyApplicable | app/dashboard/fee-types/page.tsx:518-540 | Only the window is checked. A set bound must have three parts reading as a day, or the answer is false. Both bounds are inclusive, and the scheduled date is not consulted. |
| Applicability.LedgerIsApplicableAndScheduled | app/dashboard/master-ledger/page.tsx:164-200 | The ledger counts a fee as due exactly when the fee-types page calls it currently applicable and its scheduled date has been reached. |
| Applicability.NoDatesAllAgree | app/dashboard/fee-types/page.tsx:518-540 | With no date set, all three variants call the fee due on every day. |
| Applicability.ApplicableIgnoresSchedule | app/dashboard/fee-types/page.tsx:518-540 | Changing the scheduled date never changes `isCurrentlyApplicable`. |
| Applicability.StrictMatchesLoose | app/dashboard/record-payment/page.tsx:84-85 | The strict reader (exactly three parts) and the loose reader (first three parts) agree on every text with at most three parts. |
| Applicability.LedgerMatchesRecordPayment | app/dashboard/page.tsx:228-254 | The ledger's and record payment's (the dashboard's) due flags agree on every fee type whose set dates have at most three parts. |
| Applicability.DateReadsAlike | app/dashboard/record-payment/page.tsx:83-103 | A set date of at most three parts passes each of the three checks alike in both variants. |
| Applicability.SplitIsoDate | app/dashboard/fee-types/page.tsx:152 | A stored `YYYY-MM-DD` text splits on `-` into exactly its three numerals. |
| Applicability.ParseIsoDate | app/dashboard/master-ledger/page.tsx:169-171 | Both readers read the stored text of a real calendar day back as that day's number. |
| Applicability.DueFromDay | app/dashboard/master-ledger/page.tsx:178-184 | A fee type whose only date is "applicable from" y-m-d is not due on the day before that date and is due on that day, in every variant. |
| Applicability.ParseFourPartDate | app/dashboard/master-ledger/page.tsx:170 | A date text with a fourth part after a real day is rejected by the strict reader and read as that day by the loose one. |
| Applicability.FourPartDateDiffers | app/dashboard/record-payment/page.tsx:84-88 | With such a scheduled date, the ledger never counts the fee while record payment counts it once the day arrives. |
| NetPayable.LedgerIgnoresStoredNet | app/dashboard/master-ledger/page.tsx:158-160 | The ledger's net is `assigned - discount`, with the default filling a missing assigned amount. The stored net plays no part, and the result is never clamped. |
| NetPayable.RecalcVersusLedger | app/dashboard/fee-types/page.tsx:125-126 | The recomputation's net equals the ledger's exactly when no net is stored or the stored net equals assigned less discount. |
| NetPayable.RecordVersusRecalc | app/dashboard/record-payment/page.tsx:77 | Record payment's net equals the recomputation's exactly when a net is stored or the discount is 0. On the fallback path it omits the discount. |
| NetPayable.RegistrationVersusRecalc | app/dashboard/student-registration/page.tsx:108-116 | Registration's net equals the recomputation's exactly when a net is stored, or a stored assigned amount of 0 does not let a non-zero default through. |
| NetPayable.RegistrationZeroFallsThrough | app/dashboard/student-registration/page.tsx:108 | A concrete line: stored assigned 0, default 500, no stored net. Registration shows 500 where the other pages count 0. |
| Status.LedgerStatusOf | app/dashboard/master-ledger/page.tsx:269-284 | The ledger's classifier. With fees ≤ 0.009 it gives `paid` if something was paid, else `no_fees_due`. Otherwise it gives `paid` for paid ≥ fees, `partially_paid` for 0 < paid < fees, and `unpaid` for the rest. |
| Status.DetailStatusOf | app/dashboard/page.tsx:361-366 | The dashboard's chain: "No Dues" for an assigned total ≤ 0.009, whatever was paid. Otherwise "Paid" for paid ≥ assigned, "Partial" for paid > 0, and "Unpaid" for the rest. |
| Status.ClassifiersAgreeExceptPrepaid | app/dashboard/page.tsx:420-425 | The two classifiers agree on every input except nothing due with something paid. The ledger calls that case paid and the dashboard "No Dues". |
| Status.BalanceTone | app/dashboard/master-ledger/page.tsx:581-583 | A balance above 0.009 is shown as owed, one below -0.009 as "(Adv)", and anything else plainly. The three cases are exclusive. |
| Status.ToneMatchesStatus | app/dashboard/master-ledger/page.tsx:544-546 | An owed balance never belongs to a `paid` student, and an advance on fees that are not negative is `paid`. |
| MasterLedger.DetailOf | app/dashboard/master-ledger/page.tsx:203-212 | The detail's net is its assigned amount less its discount, which is the ledger's net for the line. A line without a fee type shows "Unknown Fee Type", with no fee type id and no dates. |
| MasterLedger.Details | app/dashboard/master-ledger/page.tsx:156-213 | One detail per line, in order. |
| MasterLedger.LineTotals | app/dashboard/master-ledger/page.tsx:153-200 | The accumulators: total assigned is the sum of every line's net, and currently due is the sum over lines whose fee type the ledger's checks find due. |
| MasterLedger.LineAmounts | app/dashboard/master-ledger/page.tsx:157-200 | One line's net and due flag. A line without a fee type is never due. |
| MasterLedger.EnrichStudent | app/dashboard/master-ledger/page.tsx:150-224 | The enriched student: the paid sum of its payments, the two accumulator totals, the line details, and the class name or "N/A". |
| MasterLedger.EnrichAll | app/dashboard/master-ledger/page.tsx:149-225 | Every fetched student enriched, in order. |
| MasterLedger.AssignedIsDuePlusNotDue | app/dashboard/master-ledger/page.tsx:162-199 | Total assigned is the currently due amount plus the nets of the lines not due, including lines without a fee type. |
| MasterLedger.UndatedLinesAllDue | app/dashboard/master-ledger/page.tsx:164-200 | When every line has a fee type with no dates, currently due equals total assigned. |
| MasterLedger.DueAtMostAssigned | app/dashboard/master-ledger/page.tsx:160-199 | With no negative net, currently due is at most total assigned. |
| MasterLedger.DueCanExceedAssigned | app/dashboard/master-ledger/page.tsx:160 | Nets are not clamped, so a discount above the assigned amount on a line that is not due makes currently due (100) exceed total assigned (50). |
| MasterLedger.SearchFilter | app/dashboard/master-ledger/page.tsx:286-294 | An empty term keeps everyone. Otherwise exactly the students whose lower-cased name, non-empty roll number or non-empty class name includes the lower-cased term are kept, each as often as listed and in the listed order (`Seqs.SelectedInOrder`: the kept rows sit at increasing positions, which are all the matching ones). |
| MasterLedger.SearchNAFindsUnclassed | app/dashboard/master-ledger/page.tsx:290-292 | Searching "n/a" finds every student without a class, whose class name is "N/A" (the class name `N/A` comes from line 218). |
| MasterLedger.ClassNames | app/dashboard/master-ledger/page.tsx:524-525 | The groups of the school view are the distinct class names of the listed students, strictly ascending. |
| MasterLedger.Group | app/dashboard/master-ledger/page.tsx:527 | A group holds exactly the listed students of that class. |
| MasterLedger.EachStudentInOneGroup | app/dashboard/master-ledger/page.tsx:524-527 | Every listed student's class is among the names, and the student lies in its own class's group and in no other. |
| MasterLedger.StatusCountsAddUp | app/dashboard/master-ledger/page.tsx:530-533 | The four status counts of a group add up to its size. |
| MasterLedger.ClassRowCountsAddUp | app/dashboard/master-ledger/page.tsx:527-533 | A class row's four status counts add up to its student count. |
| MasterLedger.ClassRows | app/dashboard/master-ledger/page.tsx:526-557 | One row per class name, in order. |
| MasterLedger.ClassRowAt | app/dashboard/master-ledger/page.tsx:527-533 | Row k holds class k's size, the fee and paid sums over its group and its status counts. |
| MasterLedger.RowsAreGroupTotals | app/dashboard/master-ledger/page.tsx:528-529 | Summing a column of the rows is summing each group's total. |
| MasterLedger.SchoolViewAddsUp | app/dashboard/master-ledger/page.tsx:523-533 | The class fee totals add up to the fees of all listed students, the paid totals to all they paid, and the sizes to the number of students. |
| MasterLedger.LastPayment | app/dashboard/master-ledger/page.tsx:561 | The last payment is none without payments. Otherwise it is a payment of the student with the latest date, and no earlier-listed payment shares that date. |
| LedgerExport.Header | app/dashboard/master-ledger/page.tsx:309-316 | Twelve header cells. The fourth names the view's fee figure. |
| LedgerExport.StatusLabels | app/dashboard/master-ledger/page.tsx:326 | The status cells of the statuses without an underscore in their code are "Paid", "Unpaid" and "No Fees Due". |
| LedgerExport.Row | app/dashboard/master-ledger/page.tsx:318-332 | Twelve cells in header order: the student's name first and the status label seventh. Without a payment, the four last-payment cells are "-". |
| LedgerExport.RowAmounts | app/dashboard/master-ledger/page.tsx:319-325 | The class and roll number cells, each "N/A" when empty. Then the view's fee figure, the paid total and the balance, which is the fee figure less the paid total, each formatted as money. |
| LedgerExport.RowLastPayment | app/dashboard/master-ledger/page.tsx:318-331 | With a last payment: its formatted date and amount, its mode with the first underscore made a space, and its receipt number or "-". The academic year cell is the year or "-". |
| LedgerExport.CsvCell | app/dashboard/master-ledger/page.tsx:334 | A cell containing a comma is wrapped in double quotes; any other cell is left as it is. |
| LedgerExport.QuotedCells | app/dashboard/master-ledger/page.tsx:334 | Each cell is quoted as needed, in order. |
| LedgerExport.RowLines | app/dashboard/master-ledger/page.tsx:318-334 | One CSV line per listed student, in order. |
| LedgerExport.CsvLineSplits | app/dashboard/master-ledger/page.tsx:334 | A line whose cells hold neither a comma nor a line break splits on "," back into those cells. |
| LedgerExport.CsvLines | app/dashboard/master-ledger/page.tsx:334 | With no line break in any cell, the export splits on "\n" into the header line followed by one line per listed student. |
| FeeTypes.FormatFullDateValid | app/dashboard/fee-types/page.tsx:146-153 | The fields format to a date exactly when they read as a year in 1900..2200, a month index in 0..11 and a day of that month, and then to the `YYYY-MM-DD` text with month index + 1. |
| FeeTypes.EditFields | app/dashboard/fee-types/page.tsx:420-431 | The date fields are enabled exactly when a from date is set. Without one, or when it does not split into three parts, they hold day 1 of the current month and year. |
| FeeTypes.FormatRoundTrip | app/dashboard/fee-types/page.tsx:146-153 | A date the page stores reads back, through the edit dialog's split at lines 424-431, into fields holding the same numbers, which format to the same text again. The ledger and record payment read that text as the same calendar day. |
| FeeTypes.StoredDateReads | app/dashboard/fee-types/page.tsx:424-431 | The stored text of a valid day fills the edit form with its numbers in plain decimal and reads as that day. |
| FeeTypes.CanonicalFieldsFormat | app/dashboard/fee-types/page.tsx:146-153 | Fields in plain decimal that form a valid date format to that date's text. |
| FeeTypes.RecalculateTotal | app/dashboard/fee-types/page.tsx:123-128 | The loop's total is the sum over the lines of `net ?? (assigned ?? default ?? 0) - (discount ?? 0)`. |
| FeeTypes.RecalcOrderFree | app/dashboard/fee-types/page.tsx:108-128 | Recomputing over the same rows fetched in another order gives the same total. |
| FeeTypes.Toggle | app/dashboard/fee-types/page.tsx:312-314 | A listed id is removed (every occurrence), and an unlisted one is appended. |
| FeeTypes.ToggleTwice | app/dashboard/fee-types/page.tsx:312-314 | Toggling twice gives back the same set of ids, and from an unticked id the very same list. |
| FeeTypes.ValidateFeeForm | app/dashboard/fee-types/page.tsx:316-325 | A blank name is refused. A non-empty amount is refused when `parseFloat` reads it as NaN or a negative number. An empty amount is accepted. |
| FeeTypes.AcceptedDefaultNotNegative | app/dashboard/fee-types/page.tsx:319-321 | An accepted empty or number-input amount stores a finite default that is not negative. |
| FeeAssignment.ComputeAssignmentDiff | app/dashboard/fee-types/page.tsx:588-616 | The loops' results: the selected ids no row holds, each once in first-ticked order; the first row id of each holder no longer selected; and the union of those students as the set to recompute. |
| FeeAssignment.AddListMeaning | app/dashboard/fee-types/page.tsx:597-607 | The students added are exactly the selected ones no row holds, without repeats. |
| FeeAssignment.DeleteListSound | app/dashboard/fee-types/page.tsx:609-616 | Every deleted id is that of a row of a holder who is no longer selected. |
| FeeAssignment.DeleteListComplete | app/dashboard/fee-types/page.tsx:609-616 | Every holder who is no longer selected loses one of its rows. |
| FeeAssignment.NewLine | app/dashboard/fee-types/page.tsx:575-605 | An inserted line is for the fee type and carries its `default_amount \|\| 0` and discount 0. |
| FeeAssignment.NewLinks | app/dashboard/fee-types/page.tsx:619-622 | Row k of the insert is for the k-th added student, with id `id0 + k` and the new line. |
| FeeAssignment.LinesOf | app/dashboard/fee-types/page.tsx:108-115 | A student's lines are exactly the lines of the rows for that student, in table order. |
| FeeAssignment.AssignedAreSelected | app/dashboard/fee-types/page.tsx:588-628 | When no student held the fee type twice, the holders after the diff are exactly the selected students, and none holds it twice. |
| FeeAssignment.KeptOnlyIfSelected | app/dashboard/fee-types/page.tsx:609-616 | An old row of the fee type survives only for a selected student. |
| FeeAssignment.OthersUntouched | app/dashboard/fee-types/page.tsx:624-628 | Rows of other fee types are left as they were, in the same order. |
| FeeAssignment.AppliedFacts | app/dashboard/fee-types/page.tsx:618-628 | Applying the diff keeps ids unique and below the next id, keeps other fee types' rows and selected holders' rows, and makes the holders the selected set. |
| FeeAssignment.RecalcMeaning | app/dashboard/fee-types/page.tsx:603-613 | The students recomputed are exactly those whose holding of the fee type changes. |
| FeeAssignment.DiffFor | app/dashboard/fee-types/page.tsx:578-616 | The diff from the fee type's rows in table order, with the students to recompute characterised. |
| FeeAssignment.InsertRows | app/dashboard/fee-types/page.tsx:618-622 | The insert appends the new rows, and is skipped when there are none. |
| FeeAssignment.DeleteRows | app/dashboard/fee-types/page.tsx:624-628 | The delete removes exactly the rows with the listed ids, and is skipped when there are none. |
| FeeAssignment.FeeStore.constructor | app/dashboard/fee-types/page.tsx:578-582 | An empty table with the given cached totals satisfies the table invariant. |
| FeeAssignment.FeeStore.RecalculateStudentTotalFees | app/dashboard/fee-types/page.tsx:106-140 | The student's cached total becomes the recomputed sum of its lines. No other entry and no row changes. |
| FeeAssignment.FeeStore.ApplyAssignmentDiff | app/dashboard/fee-types/page.tsx:586-628 | The table becomes the old one with the new rows inserted and the listed rows deleted. The next id moves past the new rows, and the returned students are those whose holding changes. |
| FeeAssignment.FeeStore.RecalculateAll | app/dashboard/fee-types/page.tsx:630-634 | Every listed student's cached total is recomputed, in any order. Every other entry is unchanged. |
| FeeAssignment.FeeStore.AssignStudentsToFee | app/dashboard/fee-types/page.tsx:565-634 | Without a fee type, a school or a class nothing changes. Otherwise the diff is applied and the invariant kept. Other fee types' rows stay. Holders become the selected students when none held it twice. Changed students' totals are recomputed and the rest are untouched. |
| RecordPayment.CurrentlyDue | app/dashboard/record-payment/page.tsx:70-111 | The sum of `net ?? assigned ?? (default \|\| 0)` over the lines whose fee type record payment's checks find due. A line without a fee type adds nothing. |
| RecordPayment.DueLineCases | app/dashboard/record-payment/page.tsx:82-105 | A line without a fee type, or with a set date that does not read as a date, adds nothing. A fee type without dates is due. |
| RecordPayment.SameDueAsLedger | app/dashboard/record-payment/page.tsx:75-107 | With no stored net, no discount and no date of more than three parts, record payment's currently due equals the ledger's. |
| RecordPayment.TotalPaid | app/dashboard/record-payment/page.tsx:167 | The paid total is the sum of the payments, and 0 without any. |
| RecordPayment.TotalPaidOfPositive | app/dashboard/record-payment/page.tsx:167 | With positive payments the paid total is positive exactly when there is a payment. |
| RecordPayment.DisplayedAssigned | app/dashboard/record-payment/page.tsx:171 | The assigned total shown is the cached `total_fees`, or 0 when missing. |
| RecordPayment.DisplayedAssignedIgnoresLines | app/dashboard/record-payment/page.tsx:171 | The student's lines play no part in the assigned total shown. |
| RecordPayment.EnrichListItem | app/dashboard/record-payment/page.tsx:166-175 | A picker entry holds the cached total, the paid sum and the currently due amount. |
| RecordPayment.PickerStudents | app/dashboard/record-payment/page.tsx:230-237 | Everyone when the term and class filter are both empty. Otherwise exactly the students whose lower-cased name or non-empty roll number includes the lower-cased term and whose class matches a non-empty filter, each as often as fetched and in the fetched order. |
| RecordPayment.PickerShortcutAgrees | app/dashboard/record-payment/page.tsx:230-231 | The shortcut for an empty term and filter gives what the filter itself would. |
| RecordPayment.PickerClassOnly | app/dashboard/record-payment/page.tsx:235 | A class filter keeps only students of that class. |
| RecordPayment.ReceiptNumber | app/dashboard/record-payment/page.tsx:274-276 | The trimmed manual number when it is not blank, otherwise "R-" followed by the time in milliseconds. |
| RecordPayment.ReceiptNeverEmpty | app/dashboard/record-payment/page.tsx:274-276 | A receipt number is never empty, and a generated one starts with "R-". |
| RecordPayment.SubmitPayment | app/dashboard/record-payment/page.tsx:259-295 | Refused without a student, student id or school, and for an empty, non-numeric or non-positive amount. Otherwise the payment row, with the amount read by `parseFloat`. |
| RecordPayment.AcceptedAmountPositive | app/dashboard/record-payment/page.tsx:269-290 | For a number-input amount, an accepted payment stores exactly the positive finite amount `Number` checked. |
| RecordPayment.AcceptedAmount | app/dashboard/record-payment/page.tsx:269-272 | A number-input amount passing the check is read alike by `Number` and `parseFloat`, as a positive finite number. |
| Dashboard.SchoolTotals | app/dashboard/page.tsx:260-305 | All zero without a school or a user. Otherwise the count query's count, the sums of the cached totals, of all payments and of currently due, and outstanding as assigned less collected. |
| Dashboard.CollectedIsAllPayments | app/dashboard/page.tsx:290-294 | The nested loop's collected total is the sum of all the school's payments taken together. |
| Dashboard.DetailRowOf | app/dashboard/page.tsx:357-377 | A row holds the cached total (or 0), the paid sum, outstanding as their difference (possibly negative) and the dashboard's status. |
| Dashboard.DetailRows | app/dashboard/page.tsx:357-377 | One row per student, in order. |
| Dashboard.OutstandingRows | app/dashboard/page.tsx:416-437 | Exactly the rows owing more than 0.009, in the order of the students. |
| Dashboard.RowsAddUpToOutstanding | app/dashboard/page.tsx:419 | The rows' outstanding amounts add up to the card's figure, assigned less collected (the card is computed at line 303). |
| Dashboard.OutstandingRowsUnsettled | app/dashboard/page.tsx:420-437 | A listed row, with no negative payment, has "Partial" or "Unpaid" status. |
| Dashboard.DueOutstanding | app/dashboard/page.tsx:521 | Currently due less collected when both figures are present, and 0 when both are missing. |
| StudentRegistration.AcademicYears | app/dashboard/student-registration/page.tsx:26-37 | Four labels `Y-(Y+1)` whose start years run on from the current year. For a non-negative year they are distinct and each reads back as its two years. |
| StudentRegistration.YearLabelReadsBack | app/dashboard/student-registration/page.tsx:34 | A label splits on "-" into its start year and the next. |
| StudentRegistration.DetailOf | app/dashboard/student-registration/page.tsx:106-117 | Assigned is `assigned \|\| default \|\| 0`, discount is `discount \|\| 0`, and net is the stored net, else assigned less discount. |
| StudentRegistration.DetailVersusRecalc | app/dashboard/student-registration/page.tsx:108-116 | The detail's net agrees with the recomputed one exactly when a net is stored, or no stored assigned 0 hides a non-zero default. |
| StudentRegistration.ToggleKeepsDistinct | app/dashboard/student-registration/page.tsx:192-194 | It is the fee-types toggle, and it keeps the selected ids free of repeats. |
| StudentRegistration.DiscountOf | app/dashboard/student-registration/page.tsx:196 | `parseFloat(val) \|\| 0`: unreadable text and 0 give 0, and otherwise the number read. |
| StudentRegistration.NumberInputDiscount | app/dashboard/student-registration/page.tsx:196 | A number input's text sets the discount to the number it shows. |
| StudentRegistration.DiscountChange | app/dashboard/student-registration/page.tsx:195-197 | Sets that entry's discount and keeps its description (empty for a new entry). Every other entry is kept. |
| StudentRegistration.DescChange | app/dashboard/student-registration/page.tsx:198-200 | Sets that entry's description and keeps its discount (0 for a new entry). Every other entry is kept. |
| StudentRegistration.AdjustmentEditsCommute | app/dashboard/student-registration/page.tsx:195-200 | Editing the discount and description of one entry gives the same map in either order. |
| StudentRegistration.RelevantList | app/dashboard/student-registration/page.tsx:293 | The class's fee types when there are any, else all of the school's. |
| StudentRegistration.FindFee | app/dashboard/student-registration/page.tsx:343 | The first relevant fee type with that id, or none when there is none. |
| StudentRegistration.FeeLinks | app/dashboard/student-registration/page.tsx:341-354 | One link per selected id, in order. Each carries the default of the first relevant fee type with that id (or 0), the entered discount (or 0), and the trimmed description (null when blank). |
| StudentRegistration.TotalMatchesLinks | app/dashboard/student-registration/page.tsx:342-346 | With distinct relevant ids and every selected id (taken once) relevant, the stored total equals the sum of the links' assigned less discount (the form total is lines 295-300). |
| StudentRegistration.FoundMatchesTicked | app/dashboard/student-registration/page.tsx:343 | With distinct ids on both sides, the found fee types are the ticked relevant ones, each once, up to order (the form total filters at lines 295-296). |
| StudentRegistration.MissingSelectionDisagrees | app/dashboard/student-registration/page.tsx:344 | A selected id missing from the relevant list adds nothing to the total, but its link is inserted with assigned 0 and its discount. So the two sums differ (the form total filters at line 296). |
| StudentRegistration.ValidateRegistration | app/dashboard/student-registration/page.tsx:247-250 | Refused without a school, and with a blank name or roll number or a missing class or academic year. |
| StudentRegistration.RollCheckNeeded | app/dashboard/student-registration/page.tsx:253-264 | Always for a new student. For an edit, only when the edited student is listed and its roll number, class or year changes. |
| StudentRegistration.EditCheckedIffChanged | app/dashboard/student-registration/page.tsx:254-263 | With unique ids, an edit of a listed student is checked exactly when it changes one of those three fields. |
| Collections.PeriodRange | app/dashboard/collections/page.tsx:74-103 | The switch gives each period's range: the selected date twice, the week, the month's, the quarter's or the year's. The weekly case yields none for a selected text that is not a date. |
| Collections.WeekOf | app/dashboard/collections/page.tsx:80-86 | The weekly range is the texts of the selected day's Monday and of the Sunday six days on. |
| Collections.WeekStartMeaning | app/dashboard/collections/page.tsx:82-83 | The week starts on a Monday holding the day within its seven days, and a Sunday goes back six days. |
| Collections.WeekRangeMeaning | app/dashboard/collections/page.tsx:80-86 | In years 1000..9999 the weekly range reads back as a Monday through the next Sunday, holding the selected day. |
| Collections.MonthRangeMeaning | app/dashboard/collections/page.tsx:87-91 | The monthly range reads back as the month's first and last day, in order. The day after the last is the next month's first. |
| Collections.QuarterDays | app/dashboard/collections/page.tsx:92-98 | A quarter reads back as the first day of month 3q-2 through the last day of month 3q. |
| Collections.YearRangeDays | app/dashboard/collections/page.tsx:99-102 | The yearly range reads back as 1 January through 31 December. |
| Collections.QuartersTileYear | app/dashboard/collections/page.tsx:92-102 | The four quarters cover the year without gap or overlap. Each starts no later than it ends, the first starts on 1 January, each ends the day before the next begins, and the last ends on 31 December. |
| Collections.YearIsSumOfQuarters | app/dashboard/collections/page.tsx:92-102 | The year's collected total is the sum of its four quarters' totals (each total is the reduce at line 126), with the query read by calendar day. |
| Collections.DefaultQuarter | app/dashboard/collections/page.tsx:36 | `floor(month0 / 3) + 1` is in 1..4 and its months include the current month. |
| Collections.DefaultQuarterHoldsToday | app/dashboard/collections/page.tsx:36 | Today lies in the range of the quarter the report opens on. |
| Collections.TotalCollected | app/dashboard/collections/page.tsx:61-134 | 0 without a school or when the query fails. Otherwise the sum of `amount_paid` over the rows returned. |
| Collections.CollectedSplits | app/dashboard/collections/page.tsx:110-126 | Splitting a span of days in two splits the total of the payments in it. |
| Collections.FetchedTotal | app/dashboard/collections/page.tsx:110-126 | For a range whose bounds read as days, the total is the sum over the payments whose stored date falls on a day within it, the end day included. |
| Calendar.DaysInMonth | app/dashboard/fee-types/page.tsx:39-41 | `new Date(y, m0 + 1, 0).getDate()` is between 28 and 31. For a month index 0..11 of a year outside 0..99 (which `new Date` maps to 1900..1999), it is the Gregorian length of that month. |
| Calendar.DayZeroIsLastDay | app/dashboard/fee-types/page.tsx:40 | Day 0 of the next month is the last day of month `m0`. |
| Calendar.UtcDay | app/dashboard/master-ledger/page.tsx:171 | A `Date.UTC` day that is not NaN lies within the time-value range of 10^8 days either side of 1970. |
| Calendar.UtcDayCivil | app/dashboard/master-ledger/page.tsx:181 | For a year outside 0..99 and a month in range, `Date.UTC` is the civil day number. |
| Calendar.NextMonth | app/dashboard/collections/page.tsx:88-89 | Consecutive months' first days are a month length apart. |
| Calendar.CivilOfDay | app/dashboard/collections/page.tsx:84-85 | The day found for a day number has that number: the inverse of the day count on real days. |
| JsNumber.ParseShowNat | app/dashboard/fee-types/page.tsx:429-430 | `parseInt` of a zero-padded numeral of n reads back n, with or without radix 10. |
| JsNumber.NumberAgreesWithParseFloat | app/dashboard/record-payment/page.tsx:269-290 | On number-input strings, `Number` and `parseFloat` agree, are finite and carry the sign shown. |
| JsText.TrimEmptyIffBlank | app/dashboard/fee-types/page.tsx:317 | A string trims to empty exactly when it is all white space. |
| JsText.SplitJoin | app/dashboard/fee-types/page.tsx:426 | Splitting undoes joining when no piece holds the separator. |
| JsText.ContainsIffOccurs | app/dashboard/master-ledger/page.tsx:290 | `includes` holds exactly when the text occurs at some position. |

## Left out

- Supabase queries, inserts, updates and deletes are not modelled as I/O. The fetched rows are inputs. A persist step is an assignment to the `FeeStore` fields, or a returned record.
- Query errors are not modelled, except in two places: a failed collections query sets the total to 0, and a failed dashboard fetch leaves no students to add up. The paths below are left out.
- `FeeAssignment.FeeStore.RecalculateStudentTotalFees`: always writes the recomputed total. The page returns null without writing `total_fees` when the fetch of the student's lines fails (app/dashboard/fee-types/page.tsx:119-122) or when the update fails (app/dashboard/fee-types/page.tsx:138-141). Either failure leaves the cached total stale, and the model does not capture that.
- `StudentRegistration.RollCheckNeeded`: says only when the roll-number check runs. The page refuses the save when that query returns an error (app/dashboard/student-registration/page.tsx:277-281), and that refusal is not modelled.
- The thrown errors of the assignment's insert and delete, of the registration's inserts and of the payment insert are not modelled.
- React state, effects, toasts, loading flags and the `Promise.all` orchestration are left out.
- The concurrent recalculation and last-write-wins races between administrators are left out. `FeeAssignment.FeeStore.RecalculateAll` recomputes the students one at a time in an arbitrary order, and proves the result does not depend on that order.
- Floating point is not modelled: money is exact `real`. `toFixed`, `toLocaleString` and `toLocaleDateString` are rendering choices, passed to the CSV row as a `Formats` parameter of formatting functions.
- Time zones are left out; everything is in UTC. "Today" and `Date.now()` are parameters, and the weekly range works on day numbers. The local `getDay` and `setDate` are taken to agree with UTC.
- The `Math.random()` fallback id of a line without a fee type is modelled as the absence of an id.
- The PDF export (html2pdf), the Blob and anchor download, and the file name are left out.
- `Calendar.DaysInMonth`: is between 28 and 31 for every year. `new Date` gives an invalid date, and `getDate()` gives NaN, once the date lies more than 10^8 days from 1970, that is, for years beyond about 275760 either side. The pages pass only years checked to lie in 1900..2200, or years from pickers that run over a few years around today's, so the NaN case is not modelled.
- `Collections.PeriodRange`: a weekly range on a text that is not a date is `None`. On the page that throw comes before the `try` block, so the previous total stays on screen and the loading flag stays set. Neither effect is modelled, since React state is left out.
- `JsText.ToLower`: covers only ASCII letters. Unicode case mapping is not modelled.
- `MasterLedger.ClassNames`: the sort uses code-unit order, not `localeCompare`'s locale collation.
- `LedgerExport.StatusLabels`: does not state the label of `partially_paid`. The model computes it as the page does, by upper-casing the first letter and replacing the first underscore, but the equation with the literal "Partially paid" is not proved.
- `Collections.DateInputDay`: accepts only the `YYYY-MM-DD` texts of real days. Other texts `new Date` would accept are read as invalid; a date input yields only those texts or the empty text.
- `Collections.WeekRangeMeaning`: together with the other read-back lemmas of the collections ranges and `Collections.IsoTextReadsBack`, it is stated for years 1000..9999. Outside those years `toISOString` writes six-digit signed years, which the date readers handle differently.
- The collections query's ordering by date and its class filter on the embedded students are left out. Only the total over the returned rows is modelled.
- `Collections.Fetched`: keeps a payment when the calendar day of its stored `date` lies within the range, the end day included. This reading of `.gte('date', start).lte('date', end)` (app/dashboard/collections/page.tsx:113-114) holds when the database compares the column by day. Payments are stored with a full `toISOString()` timestamp (app/dashboard/record-payment/page.tsx:291), and the column's type is not part of this model. If the column is a timestamp compared by instant, the bare end date means its midnight, so payments made later on the end day are dropped. That affects the last day of each month, quarter and year. `Collections.FetchedTotal`, `Collections.CollectedSplits` and `Collections.YearIsSumOfQuarters` are stated for the day-level reading only.
- `FeeTypes.RecalcOrderFree`: stated for lists without repeated lines. Two identical lines fetched in different multiplicities are not covered.
- `Dashboard.DueOutstanding`: states only the cases where both figures are present or both are missing.
- `RecordPayment.AcceptedAmountPositive`: states the agreement of `Number` and `parseFloat` only for the strings a number input yields. Typed strings such as "0x10" cannot reach the page that way.
- `StudentRegistration.DiscountOf`: reads an infinite `parseFloat` result as 0, where the page would store Infinity, because the discount is a `real`. A number input never yields "Infinity".
- `startEditStudent` is left out: rebuilding the form from a listed student is form plumbing.
- Spreads of the fee type's other fields into a registration detail are left out. Only the fields the arithmetic uses are modelled.
- `parseInt` is modelled for radix 10 and the automatic radix (decimal or `0x` hexadecimal), the only forms the pages call.
- The auth and session pages, the layout and header, and the generated database types are left out. The database types were used only for field names and nullability.
