/** Whether a fee is "currently due" on a given day. Three pages decide it, each
    in its own way: the master ledger (three date parts required), record payment
    and the dashboard (no check on the number of parts) and the fee-types page's
    `isCurrentlyApplicable` (which ignores the scheduled date). Days are day
    numbers (`Date.UTC(...)` divided by the length of a day); `today` is the day
    number of the current UTC date. */
module Applicability {
  import opened Wrappers
  import opened JsText
  import opened JsNumber
  import opened Calendar
  import opened Records

  /** `parseInt(parts[i])`, where a missing part is `undefined` and reads as NaN. */
  function PartAt(parts: seq<string>, i: nat): Option<int> {
    if i < |parts| then ParseInt(parts[i]) else None
  }

  /** `Date.UTC(parseInt(p[0]), parseInt(p[1]) - 1, parseInt(p[2]))`, or `None`
      when it is NaN. */
  function UtcOfParts(parts: seq<string>): Option<int> {
    UtcOfFields(PartAt(parts, 0), PartAt(parts, 1), PartAt(parts, 2))
  }

  /** `Date.UTC(y, m - 1, d)` of three `parseInt` results, `None` when any is NaN. */
  function UtcOfFields(y: Option<int>, m: Option<int>, d: Option<int>): Option<int> {
    if y.Some? && m.Some? && d.Some? then UtcDay(y.value, m.value - 1, d.value) else None
  }

  /** A date string read as the master ledger and `isCurrentlyApplicable` read it:
      it must split on `-` into exactly three parts. */
  function ParseDateStrict(s: string): Option<int> {
    var parts := Split(s, '-');
    if |parts| == 3 then UtcOfParts(parts) else None
  }

  /** A date string read as record payment and the dashboard read it: the first
      three parts are used, however many there are. */
  function ParseDateLoose(s: string): Option<int> {
    UtcOfParts(Split(s, '-'))
  }

  /** The parser a variant uses. */
  function ParseDate(s: string, strict: bool): Option<int> {
    if strict then ParseDateStrict(s) else ParseDateLoose(s)
  }

  /** A scheduled date, when set, has been reached. */
  predicate ScheduledOk(d: Option<string>, today: int, strict: bool) {
    !Truthy(d) || (ParseDate(d.value, strict).Some? && ParseDate(d.value, strict).value <= today)
  }

  /** An applicable-from date, when set, has been reached (inclusive). */
  predicate FromOk(d: Option<string>, today: int, strict: bool) {
    !Truthy(d) || (ParseDate(d.value, strict).Some? && ParseDate(d.value, strict).value <= today)
  }

  /** An applicable-until date, when set, has not been passed (inclusive). */
  predicate UntilOk(d: Option<string>, today: int, strict: bool) {
    !Truthy(d) || (ParseDate(d.value, strict).Some? && today <= ParseDate(d.value, strict).value)
  }

  /** The fee type is due on `today`: scheduled, in its window, every set date
      readable by the variant's parser. */
  predicate DueOn(ft: FeeType, today: int, strict: bool) {
    ScheduledOk(ft.scheduledDate, today, strict)
    && FromOk(ft.applicableFrom, today, strict)
    && UntilOk(ft.applicableUntil, today, strict)
  }

  /** The master ledger's flag computation for one fee type: each set date must
      split into exactly three parts that read as a date; a from date that fails
      ends the window check before the until date is looked at. */
  method LedgerLineDue(ft: FeeType, today: int) returns (due: bool)
    ensures due <==> DueOn(ft, today, true)
  {
    var isScheduled := ScheduledCheck(ft.scheduledDate, today);
    var isWithinApplicablePeriod := FromCheck(ft.applicableFrom, today);
    if isWithinApplicablePeriod {
      isWithinApplicablePeriod := UntilCheck(ft.applicableUntil, today);
    }
    due := isScheduled && isWithinApplicablePeriod;
  }

  /** The scheduled-date check: a set date must split into three parts that
      read as a day no later than `today`. */
  method ScheduledCheck(scheduledDate: Option<string>, today: int) returns (isScheduled: bool)
    ensures isScheduled == ScheduledOk(scheduledDate, today, true)
  {
    isScheduled := true;
    if Truthy(scheduledDate) {
      var parts := Split(scheduledDate.value, '-');
      if |parts| == 3 {
        var day := UtcOfParts(parts);
        if day.Some? {
          isScheduled := day.value <= today;
        } else {
          isScheduled := false;
        }
      } else {
        isScheduled := false;
      }
    }
  }

  /** The from-date check: a set date must split into three parts that read
      as a day no later than `today`. */
  method FromCheck(applicableFrom: Option<string>, today: int) returns (isWithinApplicablePeriod: bool)
    ensures isWithinApplicablePeriod == FromOk(applicableFrom, today, true)
  {
    isWithinApplicablePeriod := true;
    if Truthy(applicableFrom) {
      var parts := Split(applicableFrom.value, '-');
      if |parts| == 3 {
        var day := UtcOfParts(parts);
        if day.Some? {
          if today < day.value {
            isWithinApplicablePeriod := false;
          }
        } else {
          isWithinApplicablePeriod := false;
        }
      } else {
        isWithinApplicablePeriod := false;
      }
    }
  }

  /** The until-date check: a set date must split into three parts that read
      as a day no earlier than `today`. */
  method UntilCheck(applicableUntil: Option<string>, today: int) returns (isWithinApplicablePeriod: bool)
    ensures isWithinApplicablePeriod == UntilOk(applicableUntil, today, true)
  {
    isWithinApplicablePeriod := true;
    if Truthy(applicableUntil) {
      var parts := Split(applicableUntil.value, '-');
      if |parts| == 3 {
        var day := UtcOfParts(parts);
        if day.Some? {
          if today > day.value {
            isWithinApplicablePeriod := false;
          }
        } else {
          isWithinApplicablePeriod := false;
        }
      } else {
        isWithinApplicablePeriod := false;
      }
    }
  }

  /** The record-payment and dashboard flag computation for one fee type: a set
      date that is NaN or on the wrong side of today clears its flag; the number
      of parts is not checked. */
  method RecordLineDue(ft: FeeType, today: int) returns (due: bool)
    ensures due <==> DueOn(ft, today, false)
  {
    var isScheduled := true;
    var isWithinApplicablePeriod := true;
    if Truthy(ft.scheduledDate) {
      var day := UtcOfParts(Split(ft.scheduledDate.value, '-'));
      if day.None? || day.value > today {
        isScheduled := false;
      }
    }
    assert isScheduled == ScheduledOk(ft.scheduledDate, today, false);
    if Truthy(ft.applicableFrom) {
      var day := UtcOfParts(Split(ft.applicableFrom.value, '-'));
      if day.None? || today < day.value {
        isWithinApplicablePeriod := false;
      }
    }
    assert isWithinApplicablePeriod == FromOk(ft.applicableFrom, today, false);
    if Truthy(ft.applicableUntil) {
      var day := UtcOfParts(Split(ft.applicableUntil.value, '-'));
      if day.None? || today > day.value {
        isWithinApplicablePeriod := false;
      }
    }
    due := isScheduled && isWithinApplicablePeriod;
  }

  /** `isCurrentlyApplicable(feeType)` on the fee-types page: only the window is
      examined, a set bound that does not read as a date makes the fee not
      applicable, and both bounds are inclusive. */
  function IsCurrentlyApplicable(ft: FeeType, today: int): (r: bool)
    ensures !Truthy(ft.applicableFrom) && !Truthy(ft.applicableUntil) ==> r
    ensures Truthy(ft.applicableFrom) && ParseDateStrict(ft.applicableFrom.value).None? ==> !r
    ensures Truthy(ft.applicableUntil) && ParseDateStrict(ft.applicableUntil.value).None? ==> !r
    ensures r <==> FromOk(ft.applicableFrom, today, true) && UntilOk(ft.applicableUntil, today, true)
  {
    var from := if Truthy(ft.applicableFrom) then ParseDateStrict(ft.applicableFrom.value) else None;
    var until := if Truthy(ft.applicableUntil) then ParseDateStrict(ft.applicableUntil.value) else None;
    if Truthy(ft.applicableFrom) && from.None? then false
    else
      var afterFrom := if Truthy(ft.applicableFrom) then today >= from.value else true;
      if Truthy(ft.applicableUntil) && until.None? then false
      else
        var beforeUntil := if Truthy(ft.applicableUntil) then today <= until.value else true;
        afterFrom && beforeUntil
  }

  /** The ledger counts a fee as due exactly when the fee-types page calls it
      currently applicable and its scheduled date has been reached. */
  lemma LedgerIsApplicableAndScheduled(ft: FeeType, today: int)
    ensures DueOn(ft, today, true) <==>
              IsCurrentlyApplicable(ft, today) && ScheduledOk(ft.scheduledDate, today, true)
  {
  }

  /** With no dates set, all three variants call the fee due, on every day. */
  lemma NoDatesAllAgree(ft: FeeType, today: int)
    requires !Truthy(ft.scheduledDate) && !Truthy(ft.applicableFrom) && !Truthy(ft.applicableUntil)
    ensures DueOn(ft, today, true) && DueOn(ft, today, false) && IsCurrentlyApplicable(ft, today)
  {
  }

  /** `isCurrentlyApplicable` ignores the scheduled date: changing it does not
      change the answer. */
  lemma ApplicableIgnoresSchedule(ft: FeeType, today: int, s: Option<string>)
    ensures IsCurrentlyApplicable(ft.(scheduledDate := s), today) == IsCurrentlyApplicable(ft, today)
  {
  }

  /** The two date readers agree on every string that has at most three parts;
      with fewer than three, both see NaN. */
  lemma StrictMatchesLoose(s: string)
    requires |Split(s, '-')| <= 3
    ensures ParseDateStrict(s) == ParseDateLoose(s)
    ensures ParseDate(s, true) == ParseDate(s, false)
  {
    var parts := Split(s, '-');
    if |parts| < 3 {
      assert PartAt(parts, 2).None?;
    }
  }

  /** The strict and the loose variants agree on a fee type whose set dates have
      at most three parts each. */
  lemma LedgerMatchesRecordPayment(ft: FeeType, today: int)
    requires Truthy(ft.scheduledDate) ==> |Split(ft.scheduledDate.value, '-')| <= 3
    requires Truthy(ft.applicableFrom) ==> |Split(ft.applicableFrom.value, '-')| <= 3
    requires Truthy(ft.applicableUntil) ==> |Split(ft.applicableUntil.value, '-')| <= 3
    ensures DueOn(ft, today, true) == DueOn(ft, today, false)
  {
    DateReadsAlike(ft.scheduledDate, today);
    DateReadsAlike(ft.applicableFrom, today);
    DateReadsAlike(ft.applicableUntil, today);
  }

  /** A set date of at most three parts passes each check alike in both variants. */
  lemma DateReadsAlike(d: Option<string>, today: int)
    requires Truthy(d) ==> |Split(d.value, '-')| <= 3
    ensures ScheduledOk(d, today, true) == ScheduledOk(d, today, false)
    ensures FromOk(d, today, true) == FromOk(d, today, false)
    ensures UntilOk(d, today, true) == UntilOk(d, today, false)
  {
    if Truthy(d) {
      StrictMatchesLoose(d.value);
    }
  }

  /** The date text `${y}-${MM}-${DD}` that the fee-types page stores. */
  function IsoDate(y: nat, m: nat, d: nat): string {
    ShowNat(y) + "-" + Pad2(m) + "-" + Pad2(d)
  }

  /** A stored date splits back into its three fields. */
  lemma SplitIsoDate(y: nat, m: nat, d: nat)
    ensures Split(IsoDate(y, m, d), '-') == [ShowNat(y), Pad2(m), Pad2(d)]
  {
    var parts := [ShowNat(y), Pad2(m), Pad2(d)];
    assert Join(parts[..2], '-') == ShowNat(y) + "-" + Pad2(m) by {
      assert parts[..2][..1] == [ShowNat(y)];
    }
    assert Join(parts, '-') == IsoDate(y, m, d);
    forall k | 0 <= k < 3 ensures '-' !in parts[k] {
      forall i | 0 <= i < |parts[k]| ensures parts[k][i] != '-' {
        assert IsDigit(parts[k][i]);
      }
    }
    SplitJoin(parts, '-');
  }

  /** Both readers read a stored date of a real calendar day back as that day. */
  lemma ParseIsoDate(y: nat, m: nat, d: nat)
    requires 100 <= y <= 200000 && 1 <= m <= 12 && 1 <= d <= 31
    ensures ParseDateStrict(IsoDate(y, m, d)) == Some(DaysFromCivil(y, m, d))
    ensures ParseDateLoose(IsoDate(y, m, d)) == Some(DaysFromCivil(y, m, d))
  {
    var parts := [ShowNat(y), Pad2(m), Pad2(d)];
    SplitIsoDate(y, m, d);
    PartsOfIsoDate(parts, y, m, d);
    PartsReadAsDay(parts, y, m, d);
    TextReadsAsDay(IsoDate(y, m, d), parts, DaysFromCivil(y, m, d));
  }

  /** Three parts holding a real calendar day's numbers are read as that day. */
  lemma PartsReadAsDay(parts: seq<string>, y: nat, m: nat, d: nat)
    requires 100 <= y <= 200000 && 1 <= m <= 12 && 1 <= d <= 31
    requires |parts| >= 3
    requires PartAt(parts, 0) == Some(y) && PartAt(parts, 1) == Some(m) && PartAt(parts, 2) == Some(d)
    ensures UtcOfParts(parts) == Some(DaysFromCivil(y, m, d))
  {
    FieldsReadAsDay(y, m, d);
  }

  /** The numbers of a real calendar day are read as that day. */
  lemma FieldsReadAsDay(y: nat, m: nat, d: nat)
    requires 100 <= y <= 200000 && 1 <= m <= 12 && 1 <= d <= 31
    ensures UtcOfFields(Some(y), Some(m), Some(d)) == Some(DaysFromCivil(y, m, d))
  {
    UtcDayCivil(y, m, d);
  }

  /** A text splitting into three parts that read as a day is read as that day
      by both readers. */
  lemma TextReadsAsDay(s: string, parts: seq<string>, day: int)
    requires Split(s, '-') == parts && |parts| == 3 && UtcOfParts(parts) == Some(day)
    ensures ParseDateStrict(s) == Some(day) && ParseDateLoose(s) == Some(day)
  {
  }

  /** A part holding a decimal numeral reads back as its number. */
  lemma PartOfNumeral(parts: seq<string>, i: nat, n: nat, w: nat)
    requires i < |parts| && parts[i] == PadStart(ShowNat(n), w, '0')
    ensures PartAt(parts, i) == Some(n)
  {
    ParseShowNat(n, w);
  }

  /** The three fields of a stored date read back through `parseInt`. */
  lemma PartsOfIsoDate(parts: seq<string>, y: nat, m: nat, d: nat)
    requires parts == [ShowNat(y), Pad2(m), Pad2(d)]
    ensures PartAt(parts, 0) == Some(y) && PartAt(parts, 1) == Some(m) && PartAt(parts, 2) == Some(d)
  {
    assert PadStart(ShowNat(y), 0, '0') == ShowNat(y);
    PartOfNumeral(parts, 0, y, 0);
    PartOfNumeral(parts, 1, m, 2);
    PartOfNumeral(parts, 2, d, 2);
  }

  /** A fee type whose only date is "applicable from" `y-m-d` is due from that day
      on, in every variant: not on the day before, and on the day itself. */
  lemma DueFromDay(ft: FeeType, y: nat, m: nat, d: nat, today: int)
    requires 100 <= y <= 200000 && 1 <= m <= 12 && 1 <= d <= 31
    requires ft.applicableFrom == Some(IsoDate(y, m, d))
    requires !Truthy(ft.scheduledDate) && !Truthy(ft.applicableUntil)
    ensures DueOn(ft, today, true) <==> DaysFromCivil(y, m, d) <= today
    ensures DueOn(ft, today, false) <==> DaysFromCivil(y, m, d) <= today
    ensures IsCurrentlyApplicable(ft, today) <==> DaysFromCivil(y, m, d) <= today
  {
    ParseIsoDate(y, m, d);
    var day := DaysFromCivil(y, m, d);
    assert ParseDate(ft.applicableFrom.value, true) == Some(day);
    assert ParseDate(ft.applicableFrom.value, false) == Some(day);
    assert FromOk(ft.applicableFrom, today, true) <==> day <= today;
    assert FromOk(ft.applicableFrom, today, false) <==> day <= today;
  }

  /** A date text with a fourth part after a real calendar day: the strict reader
      rejects it and the loose reader reads the day. */
  lemma ParseFourPartDate(y: nat, m: nat, d: nat, extra: string)
    requires 100 <= y <= 200000 && 1 <= m <= 12 && 1 <= d <= 31 && '-' !in extra
    ensures ParseDateStrict(IsoDate(y, m, d) + "-" + extra).None?
    ensures ParseDateLoose(IsoDate(y, m, d) + "-" + extra) == Some(DaysFromCivil(y, m, d))
  {
    var s := IsoDate(y, m, d) + "-" + extra;
    var parts := Split(s, '-');
    assert s == IsoDate(y, m, d) + ['-'] + extra;
    SplitIsoDate(y, m, d);
    SplitAppendPiece(IsoDate(y, m, d), '-', extra);
    assert parts == [ShowNat(y), Pad2(m), Pad2(d), extra];
    FirstThreeParts(parts, y, m, d);
    FieldsReadAsDay(y, m, d);
  }

  /** Only the first three parts of a date text are read. */
  lemma FirstThreeParts(parts: seq<string>, y: nat, m: nat, d: nat)
    requires |parts| >= 3 && parts[..3] == [ShowNat(y), Pad2(m), Pad2(d)]
    ensures UtcOfParts(parts) == UtcOfFields(Some(y), Some(m), Some(d))
  {
    PartsOfIsoDate(parts[..3], y, m, d);
    assert parts[0] == parts[..3][0] && parts[1] == parts[..3][1] && parts[2] == parts[..3][2];
  }

  /** A scheduled date with a fourth part after a real calendar day: the ledger
      never treats the fee as scheduled, while record payment reads the first
      three parts and treats it as scheduled from that day on. */
  lemma FourPartDateDiffers(ft: FeeType, y: nat, m: nat, d: nat, extra: string, today: int)
    requires 100 <= y <= 200000 && 1 <= m <= 12 && 1 <= d <= 31 && '-' !in extra
    requires ft.scheduledDate == Some(IsoDate(y, m, d) + "-" + extra)
    requires !Truthy(ft.applicableFrom) && !Truthy(ft.applicableUntil)
    ensures !DueOn(ft, today, true)
    ensures DueOn(ft, today, false) <==> DaysFromCivil(y, m, d) <= today
  {
    ParseFourPartDate(y, m, d, extra);
  }
}
