/** The student-registration page: the academic years offered, the fee lines
    shown for each student, the selection and adjustment of fees in the form,
    the total stored on submit and the fee links inserted with it, and the
    decision whether the roll number must be checked for uniqueness. */
module StudentRegistration {
  import opened Wrappers
  import opened Seqs
  import opened JsText
  import opened JsNumber
  import opened Records
  import opened NetPayable
  import opened FeeTypes

  // Academic years

  /** `${startYear}-${startYear + 1}`. */
  function YearLabel(startYear: int): string {
    ShowInt(startYear) + "-" + ShowInt(startYear + 1)
  }

  /** The two years a label names, when it is two numerals joined by `-`. */
  function YearBounds(text: string): Option<(int, int)> {
    var parts := Split(text, '-');
    if |parts| != 2 then None
    else
      var a, b := ParseInt10(parts[0]), ParseInt10(parts[1]);
      if a.Some? && b.Some? then Some((a.value, b.value)) else None
  }

  /** A label reads back as the year it starts and the year after it. */
  lemma YearLabelReadsBack(startYear: nat)
    ensures YearBounds(YearLabel(startYear)) == Some((startYear, startYear + 1))
  {
    var next := startYear + 1;
    ShowNatNoDash(startYear);
    ShowNatNoDash(next);
    ParseShowNatPlain(startYear);
    ParseShowNatPlain(next);
    PairBounds(YearLabel(startYear), ShowNat(startYear), ShowNat(next), startYear, next);
  }

  /** A text that is the label of a start year reads back as that year and
      the next. */
  lemma LabelReadsBack(labelText: string, startYear: nat)
    requires labelText == YearLabel(startYear)
    ensures YearBounds(labelText) == Some((startYear, startYear + 1))
  {
    YearLabelReadsBack(startYear);
  }

  /** Two numerals without a dash, joined by one, read as their two values. */
  lemma PairBounds(text: string, a: string, b: string, x: int, y: int)
    requires text == a + "-" + b && '-' !in a && '-' !in b
    requires ParseInt10(a) == Some(x) && ParseInt10(b) == Some(y)
    ensures YearBounds(text) == Some((x, y))
  {
    assert text == a + ['-'] + b;
    SplitPair(a, b, '-');
  }

  /** `getAcademicYears`: four labels whose start years run on from the
      current year; for a year that is not negative they are all different
      and each reads back as its start year and the next one. */
  method AcademicYears(currentSystemYear: int) returns (years: seq<string>)
    ensures |years| == 4
    ensures forall i :: 0 <= i < 4 ==> years[i] == YearLabel(currentSystemYear + i)
    ensures currentSystemYear >= 0 ==>
              Distinct(years)
              && forall i :: 0 <= i < 4 ==> YearBounds(years[i]) == Some((currentSystemYear + i, currentSystemYear + i + 1))
  {
    var firstYearInDropdown := currentSystemYear;
    years := [];
    var i := 0;
    while i < 4
      invariant 0 <= i <= 4
      invariant |years| == i
      invariant forall k :: 0 <= k < i ==> years[k] == YearLabel(firstYearInDropdown + k)
    {
      var startYear := firstYearInDropdown + i;
      years := years + [ShowInt(startYear) + "-" + ShowInt(startYear + 1)];
      i := i + 1;
    }
    if currentSystemYear >= 0 {
      YearLabelsRead(currentSystemYear, years);
    }
  }

  /** Labels of consecutive start years from a year that is not negative are
      all different and read back as their years. */
  lemma YearLabelsRead(firstYear: nat, years: seq<string>)
    requires forall i :: 0 <= i < |years| ==> years[i] == YearLabel(firstYear + i)
    ensures Distinct(years)
    ensures forall i :: 0 <= i < |years| ==> YearBounds(years[i]) == Some((firstYear + i, firstYear + i + 1))
  {
    forall k | 0 <= k < |years|
      ensures YearBounds(years[k]) == Some((firstYear + k, firstYear + k + 1))
    {
      LabelReadsBack(years[k], firstYear + k);
    }
    forall i, j | 0 <= i < j < |years| ensures years[i] != years[j] {
      assert YearBounds(years[i]) != YearBounds(years[j]);
    }
  }

  // Fee lines shown for a student

  /** One entry of `assigned_fee_details`; an id of `None` stands for the
      random `missing-fee-…` id given to a line whose fee type is missing. */
  datatype FeeDetail = FeeDetail(
    id: Option<string>,
    assignedAmount: real,
    discount: real,
    discountDescription: Option<string>,
    netPayableAmount: real)

  /** The detail shown for a fee line: `assigned || default || 0`,
      `discount || 0` and `net ?? assigned - discount`. The `|| 0` on the
      discount changes nothing (a 0 stays 0), but the `||` on the assigned
      amount lets a stored 0 fall through to the default. */
  function DetailOf(l: FeeLine): (r: FeeDetail)
    ensures r.id.None? <==> l.feeType.None? || l.feeType.value.id == ""
    ensures r.id.Some? ==> r.id.value == l.feeType.value.id
    ensures r.discount == Nullish(l.discount, 0.0)
    ensures l.assignedAmount.Some? && l.assignedAmount.value != 0.0 ==> r.assignedAmount == l.assignedAmount.value
    ensures l.assignedAmount.None? || l.assignedAmount == Some(0.0) ==>
              r.assignedAmount == Nullish(DefaultOf(l.feeType), 0.0)
    ensures l.netPayableAmount.Some? ==> r.netPayableAmount == l.netPayableAmount.value
    ensures l.netPayableAmount.None? ==> r.netPayableAmount == r.assignedAmount - r.discount
    ensures r.discountDescription == l.discountDescription
  {
    var id := if l.feeType.Some? && l.feeType.value.id != "" then Some(l.feeType.value.id) else None;
    FeeDetail(id, RegistrationAssigned(l), OrElse(l.discount, 0.0), l.discountDescription, RegistrationNet(l))
  }

  /** The net shown for a line agrees with the one `total_fees` is recomputed
      from exactly when a net is stored or no stored assigned amount of 0
      hides a non-zero default. */
  lemma DetailVersusRecalc(l: FeeLine)
    ensures DetailOf(l).netPayableAmount == RecalcNet(l) <==>
              l.netPayableAmount.Some?
              || !(l.assignedAmount == Some(0.0) && Nullish(DefaultOf(l.feeType), 0.0) != 0.0)
  {
    RegistrationVersusRecalc(l);
  }

  // Selection and adjustments in the form

  /** `toggleFeeTypeSelection` is the same toggle as the fee-types page's:
      toggling keeps the selected ids free of repeats. */
  lemma ToggleKeepsDistinct(id: string, ids: seq<string>)
    requires Distinct(ids)
    ensures Distinct(Toggle(id, ids))
  {
    if id in ids {
      FilterDistinct(ids, x => x != id);
    }
  }

  /** The discount and description entered for one fee type. */
  datatype Adjustment = Adjustment(discount: real, description: string)

  /** `feeAdjustments`, keyed by fee type id. */
  type Adjustments = map<string, Adjustment>

  /** `parseFloat(val) || 0`: what does not read as a number, and 0, give 0. */
  function DiscountOf(val: string): (r: real)
    ensures ParseFloat(val).Fin? ==> r == ParseFloat(val).v
    ensures ParseFloat(val).NaN? ==> r == 0.0
  {
    match ParseFloat(val)
    case Fin(v) => v
    case _ => 0.0
  }

  /** The discount a number input's text sets is the number it shows. */
  lemma NumberInputDiscount(val: string)
    requires HtmlFloat(val)
    ensures ToNumber(val).Fin? && DiscountOf(val) == ToNumber(val).v
  {
    NumberAgreesWithParseFloat(val);
  }

  /** `handleDiscountChange`: sets the discount of `id` to what the text
      reads as, keeping its description (empty for a new entry) and every
      other entry. */
  function DiscountChange(adj: Adjustments, id: string, val: string): (r: Adjustments)
    ensures r.Keys == adj.Keys + {id}
    ensures forall k :: k in adj && k != id ==> r[k] == adj[k]
    ensures r[id].discount == DiscountOf(val)
    ensures r[id].description == (if id in adj then adj[id].description else "")
  {
    SetDiscount(adj, id, DiscountOf(val))
  }

  /** The entry of `id` with discount `v`: `{ ...(prev[id] || { description: '' }), discount }`. */
  function SetDiscount(adj: Adjustments, id: string, v: real): (r: Adjustments)
    ensures r.Keys == adj.Keys + {id}
    ensures forall k :: k in adj && k != id ==> r[k] == adj[k]
    ensures r[id] == Adjustment(v, if id in adj then adj[id].description else "")
  {
    var prev := if id in adj then adj[id] else Adjustment(0.0, "");
    adj[id := prev.(discount := v)]
  }

  /** `handleDescChange`: sets the description of `id`, keeping its discount
      (0 for a new entry) and every other entry. */
  function DescChange(adj: Adjustments, id: string, val: string): (r: Adjustments)
    ensures r.Keys == adj.Keys + {id}
    ensures forall k :: k in adj && k != id ==> r[k] == adj[k]
    ensures r[id] == Adjustment(if id in adj then adj[id].discount else 0.0, val)
  {
    var prev := if id in adj then adj[id] else Adjustment(0.0, "");
    adj[id := prev.(description := val)]
  }

  /** Editing the two fields of one entry gives the same entry in either order. */
  lemma AdjustmentEditsCommute(adj: Adjustments, id: string, discountText: string, description: string)
    ensures DescChange(DiscountChange(adj, id, discountText), id, description)
            == DiscountChange(DescChange(adj, id, description), id, discountText)
    ensures DescChange(DiscountChange(adj, id, discountText), id, description)[id]
            == Adjustment(DiscountOf(discountText), description)
  {
    EntryEditsCommute(adj, id, DiscountOf(discountText), description);
  }

  /** Setting the discount and the description of one entry, in either order,
      gives the map with that entry holding both. */
  lemma EntryEditsCommute(adj: Adjustments, id: string, v: real, description: string)
    ensures DescChange(SetDiscount(adj, id, v), id, description) == adj[id := Adjustment(v, description)]
    ensures SetDiscount(DescChange(adj, id, description), id, v) == adj[id := Adjustment(v, description)]
  {
    var prev := if id in adj then adj[id] else Adjustment(0.0, "");
    assert SetDiscount(adj, id, v) == adj[id := prev.(discount := v)];
    assert DescChange(adj, id, description) == adj[id := prev.(description := description)];
  }

  /** `feeAdjustments[id]?.discount || 0`. */
  function AdjDiscount(adj: Adjustments, id: string): real {
    if id in adj then adj[id].discount else 0.0
  }

  // The total and the fee links stored on submit

  /** The fee types the total is computed over: those of the selected class
      when there are any, otherwise all of the school's. */
  function RelevantList(classFeeTypes: seq<FeeType>, allSchoolFeeTypes: seq<FeeType>): (r: seq<FeeType>)
    ensures |classFeeTypes| > 0 ==> r == classFeeTypes
    ensures |classFeeTypes| == 0 ==> r == allSchoolFeeTypes
  {
    if |classFeeTypes| > 0 then classFeeTypes else allSchoolFeeTypes
  }

  /** Whether a fee type is ticked. */
  function Ticked(selected: seq<string>): FeeType -> bool {
    (ft: FeeType) => ft.id in selected
  }

  /** What one fee type adds to the total: its default less its discount. */
  function Charge(adj: Adjustments): FeeType -> real {
    (ft: FeeType) => ft.defaultAmount - AdjDiscount(adj, ft.id)
  }

  /** `totalFeesCalculated`: over the relevant fee types whose id is selected,
      in the order of that list, the sum of `default - discount`. */
  function TotalFeesCalculated(relevant: seq<FeeType>, selected: seq<string>, adj: Adjustments): real {
    Sum(Filter(relevant, Ticked(selected)), Charge(adj))
  }

  /** `list.find(p)`: the first element satisfying `p`, if any. */
  function Find<T(!new)>(s: seq<T>, p: T -> bool): (r: Option<T>)
    ensures r.None? <==> forall x :: x in s ==> !p(x)
    ensures r.Some? ==> r.value in s && p(r.value)
    ensures r.Some? ==> exists i :: 0 <= i < |s| && s[i] == r.value && forall j :: 0 <= j < i ==> !p(s[j])
    decreases |s|
  {
    if |s| == 0 then None
    else if p(s[0]) then Some(s[0])
    else
      var r := Find(s[1..], p);
      assert forall x :: x in s ==> x == s[0] || x in s[1..];
      if r.Some? then FindShift(s, p, r.value); r else r
  }

  /** A first match in the tail, after a head that does not match, is a first
      match in the whole sequence. */
  lemma FindShift<T>(s: seq<T>, p: T -> bool, v: T)
    requires |s| > 0 && !p(s[0])
    requires exists i :: 0 <= i < |s[1..]| && s[1..][i] == v && forall j :: 0 <= j < i ==> !p(s[1..][j])
    ensures exists i :: 0 <= i < |s| && s[i] == v && forall j :: 0 <= j < i ==> !p(s[j])
  {
    var i :| 0 <= i < |s[1..]| && s[1..][i] == v && forall j :: 0 <= j < i ==> !p(s[1..][j]);
    assert s[i + 1] == v;
    forall j | 0 <= j < i + 1
      ensures !p(s[j])
    {
      if j > 0 {
        assert s[j] == s[1..][j - 1];
      }
    }
  }

  /** `relevant.find(ft => ft.id === id)`: the first relevant fee type with
      that id, if any. */
  function FindFee(relevant: seq<FeeType>, id: string): (r: Option<FeeType>)
    ensures r.None? <==> forall ft :: ft in relevant ==> ft.id != id
    ensures r.Some? ==> r.value in relevant && r.value.id == id
    ensures r.Some? ==> exists i :: 0 <= i < |relevant| && relevant[i] == r.value
                                    && forall j :: 0 <= j < i ==> relevant[j].id != id
  {
    Find(relevant, (ft: FeeType) => ft.id == id)
  }

  /** A row of `student_fee_types` as the page inserts it. */
  datatype FeeLinkInsert = FeeLinkInsert(
    studentId: string,
    feeTypeId: string,
    assignedAmount: real,
    discount: real,
    discountDescription: Option<string>)

  /** The link inserted for one selected id: the default of the fee type found
      in the relevant list (0 when none is found), the entered discount and
      the trimmed description, `null` when blank or never entered. */
  function LinkFor(relevant: seq<FeeType>, adj: Adjustments, studentId: string, feeTypeId: string): FeeLinkInsert {
    var originalFee := FindFee(relevant, feeTypeId);
    var assignedAmount := if originalFee.Some? then originalFee.value.defaultAmount else 0.0;
    var description := if feeTypeId in adj && Trim(adj[feeTypeId].description) != "" then Some(Trim(adj[feeTypeId].description)) else None;
    FeeLinkInsert(studentId, feeTypeId, assignedAmount, AdjDiscount(adj, feeTypeId), description)
  }

  /** `feeLinksToInsert`: one link per selected id, in the selection's order,
      carrying that id, the student, the entered discount, and the default of
      the first relevant fee type with that id, or 0 when there is none. (With no id
      selected nothing is inserted, which is this empty list.) */
  function FeeLinks(relevant: seq<FeeType>, selected: seq<string>, adj: Adjustments, studentId: string): (r: seq<FeeLinkInsert>)
    ensures |r| == |selected|
    ensures forall i :: 0 <= i < |r| ==>
              r[i].feeTypeId == selected[i] && r[i].studentId == studentId
              && r[i].discount == AdjDiscount(adj, selected[i])
    ensures forall i :: 0 <= i < |r| && (forall ft :: ft in relevant ==> ft.id != selected[i]) ==> r[i].assignedAmount == 0.0
    ensures forall i :: 0 <= i < |r| && !(forall ft :: ft in relevant ==> ft.id != selected[i]) ==>
              exists k :: 0 <= k < |relevant| && relevant[k].id == selected[i] && r[i].assignedAmount == relevant[k].defaultAmount
                          && forall j :: 0 <= j < k ==> relevant[j].id != selected[i]
  {
    seq(|selected|, i requires 0 <= i < |selected| => LinkFor(relevant, adj, studentId, selected[i]))
  }

  /** What a link adds to the stored lines' total: assigned less discount. */
  function LinkCharge(l: FeeLinkInsert): real {
    l.assignedAmount - l.discount
  }

  /** No two fee types of the list share an id. */
  predicate IdsDistinct(fts: seq<FeeType>) {
    forall i, j :: 0 <= i < j < |fts| ==> fts[i].id != fts[j].id
  }

  /** Every selected id is the id of some relevant fee type. */
  predicate AllRelevant(relevant: seq<FeeType>, selected: seq<string>) {
    forall i :: 0 <= i < |selected| ==> exists ft :: ft in relevant && ft.id == selected[i]
  }

  /** When the relevant fee types have distinct ids and every selected id,
      taken once, is among them, the stored `total_fees` is the sum over the
      inserted links of assigned less discount. */
  lemma TotalMatchesLinks(relevant: seq<FeeType>, selected: seq<string>, adj: Adjustments, studentId: string)
    requires IdsDistinct(relevant) && Distinct(selected)
    requires AllRelevant(relevant, selected)
    ensures TotalFeesCalculated(relevant, selected, adj) == Sum(FeeLinks(relevant, selected, adj, studentId), LinkCharge)
  {
    var ticked, found := Filter(relevant, Ticked(selected)), Found(relevant, selected);
    LinksFollowFound(relevant, selected, adj, studentId);
    FoundMatchesTicked(relevant, selected);
    assert Distinct(relevant);
    FilterDistinct(relevant, Ticked(selected));
    SumDistinctSameSet(ticked, found, Charge(adj));
  }

  /** The relevant fee type found for each selected id, when every one has one. */
  ghost function Found(relevant: seq<FeeType>, selected: seq<string>): (r: seq<FeeType>)
    requires AllRelevant(relevant, selected)
    ensures |r| == |selected|
    ensures forall i :: 0 <= i < |selected| ==> r[i] in relevant && r[i].id == selected[i] && FindFee(relevant, selected[i]) == Some(r[i])
  {
    seq(|selected|, i requires 0 <= i < |selected| => FindFee(relevant, selected[i]).value)
  }

  /** Each link charges what its found fee type charges, so the links' sum is
      the found fee types' sum. */
  lemma LinksFollowFound(relevant: seq<FeeType>, selected: seq<string>, adj: Adjustments, studentId: string)
    requires AllRelevant(relevant, selected)
    ensures Sum(FeeLinks(relevant, selected, adj, studentId), LinkCharge) == Sum(Found(relevant, selected), Charge(adj))
  {
    var links, found := FeeLinks(relevant, selected, adj, studentId), Found(relevant, selected);
    forall i | 0 <= i < |selected| ensures LinkCharge(links[i]) == Charge(adj)(found[i]) {
      assert links[i] == LinkFor(relevant, adj, studentId, selected[i]);
    }
    SumPointwise(links, found, LinkCharge, Charge(adj));
  }

  /** With distinct ids on both sides, the found fee types are the ticked
      relevant ones, each once. */
  lemma FoundMatchesTicked(relevant: seq<FeeType>, selected: seq<string>)
    requires IdsDistinct(relevant) && Distinct(selected)
    requires AllRelevant(relevant, selected)
    ensures Distinct(Found(relevant, selected))
    ensures forall x :: x in Filter(relevant, Ticked(selected)) <==> x in Found(relevant, selected)
  {
    var ticked, found := Filter(relevant, Ticked(selected)), Found(relevant, selected);
    FoundDistinct(relevant, selected);
    forall x | x in ticked ensures x in found {
      TickedIsFound(relevant, selected, x);
    }
    forall x | x in found ensures x in ticked {
      var i :| 0 <= i < |found| && found[i] == x;
      assert Ticked(selected)(x);
    }
  }

  /** The found fee types carry the selected ids, so they are as distinct as
      the ids are. */
  lemma FoundDistinct(relevant: seq<FeeType>, selected: seq<string>)
    requires Distinct(selected) && AllRelevant(relevant, selected)
    ensures Distinct(Found(relevant, selected))
  {
    var found := Found(relevant, selected);
    forall i, j | 0 <= i < j < |found| ensures found[i] != found[j] {
      assert found[i].id == selected[i] && found[j].id == selected[j];
    }
  }

  /** A relevant fee type whose id is selected is the one found for that id. */
  lemma TickedIsFound(relevant: seq<FeeType>, selected: seq<string>, x: FeeType)
    requires IdsDistinct(relevant) && AllRelevant(relevant, selected)
    requires x in relevant && x.id in selected
    ensures x in Found(relevant, selected)
  {
    var found := Found(relevant, selected);
    var i :| 0 <= i < |selected| && selected[i] == x.id;
    var a :| 0 <= a < |relevant| && relevant[a] == x;
    var b :| 0 <= b < |relevant| && relevant[b] == found[i];
    assert a == b;
  }

  /** Without the premise the two disagree: a selected id missing from the
      relevant list (a class whose fee types do not include it) adds nothing
      to the total, while its link is inserted with assigned 0 and its
      discount, so the stored lines come to less than `total_fees`. */
  lemma MissingSelectionDisagrees()
    ensures var relevant := [FeeType("tuition", "Tuition", 1000.0, None, None, None)];
            var adj := map["bus" := Adjustment(100.0, "")];
            TotalFeesCalculated(relevant, ["bus"], adj) == 0.0
            && Sum(FeeLinks(relevant, ["bus"], adj, "s1"), LinkCharge) == -100.0
  {
    var relevant := [FeeType("tuition", "Tuition", 1000.0, None, None, None)];
    var adj := map["bus" := Adjustment(100.0, "")];
    assert Filter(relevant, Ticked(["bus"])) == [] by {
      assert Filter(relevant[..0], Ticked(["bus"])) == [];
    }
    var links := FeeLinks(relevant, ["bus"], adj, "s1");
    assert links[0].assignedAmount == 0.0;
    assert links == links[..0] + [links[0]];
  }

  // The submit

  /** Why the form is refused before anything is stored. */
  datatype RegistrationError = SchoolMissing | RequiredFieldMissing

  /** `handleSubmit`'s first checks: a school must be known; the name and roll
      number must not be blank and a class and an academic year must be
      chosen. */
  function ValidateRegistration(schoolId: Option<string>, name: string, rollNo: string, classId: string, academicYear: string): (r: Option<RegistrationError>)
    ensures r == Some(SchoolMissing) <==> !Truthy(schoolId)
    ensures r == Some(RequiredFieldMissing) <==>
              Truthy(schoolId) && (Trim(name) == "" || Trim(rollNo) == "" || classId == "" || academicYear == "")
  {
    if !Truthy(schoolId) then Some(SchoolMissing)
    else if Trim(name) == "" || Trim(rollNo) == "" || classId == "" || academicYear == "" then Some(RequiredFieldMissing)
    else None
  }

  /** Whether an edit changes the roll number, class or academic year of the
      student as the form holds them (roll number and year trimmed). */
  predicate Changed(original: Student, rollNo: string, classId: string, academicYear: string) {
    original.rollNo != Trim(rollNo) || original.classId != classId || original.academicYear != Trim(academicYear)
  }

  /** No two students of the list share an id. */
  ghost predicate StudentIdsUnique(students: seq<Student>) {
    forall a, b :: a in students && b in students && a.id == b.id ==> a == b
  }

  /** `performRollNoCheck`: always for a new student; for an edit only when
      the student being edited is in the list and the edit changes its roll
      number, class or year. */
  function RollCheckNeeded(editStudentId: Option<string>, students: seq<Student>, rollNo: string, classId: string, academicYear: string): (r: bool)
    ensures !Truthy(editStudentId) ==> r
    ensures Truthy(editStudentId) && (forall s :: s in students ==> s.id != editStudentId.value) ==> !r
    ensures Truthy(editStudentId) && r ==>
              exists s :: s in students && s.id == editStudentId.value && Changed(s, rollNo, classId, academicYear)
  {
    if !Truthy(editStudentId) then true
    else
      var originalStudent := Find(students, (s: Student) => s.id == editStudentId.value);
      originalStudent.Some? && Changed(originalStudent.value, rollNo, classId, academicYear)
  }

  /** With unique student ids, an edit of a listed student is checked exactly
      when it changes the roll number, class or academic year. */
  lemma EditCheckedIffChanged(editStudentId: string, students: seq<Student>, rollNo: string, classId: string, academicYear: string, original: Student)
    requires editStudentId != "" && StudentIdsUnique(students)
    requires original in students && original.id == editStudentId
    ensures RollCheckNeeded(Some(editStudentId), students, rollNo, classId, academicYear)
            <==> Changed(original, rollNo, classId, academicYear)
  {
    var found := Find(students, (s: Student) => s.id == editStudentId);
    assert found.Some?;
    assert found.value == original;
  }
}
