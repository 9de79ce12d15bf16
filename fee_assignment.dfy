/** The fee-types page's assignment of one fee type to the students of a
    class: the diff between the students who hold the fee and those ticked,
    its application to the `student_fee_types` table, and the recomputation
    of the cached `total_fees` of every student the diff touched. */
module FeeAssignment {
  import opened Wrappers
  import opened Seqs
  import opened Records
  import opened NetPayable
  import FeeTypes

  /** A row of `student_fee_types` as stored: its id, its student and the
      line it holds, with the fee type it names joined in. */
  datatype Link = Link(id: nat, studentId: string, line: FeeLine)

  /** `{ id, student_id }` of a row holding the fee type being assigned. */
  datatype AssignmentRef = AssignmentRef(id: nat, studentId: string)

  function RefOf(l: Link): AssignmentRef {
    AssignmentRef(l.id, l.studentId)
  }

  /** Whether some row links student `s` to fee type `f`. */
  ghost predicate HasRow(links: seq<Link>, f: string, s: string) {
    exists l :: l in links && l.line.feeTypeId == f && l.studentId == s
  }

  /** Rows with the same id are the same row. */
  ghost predicate UniqueIds(links: seq<Link>) {
    forall l1, l2 :: l1 in links && l2 in links && l1.id == l2.id ==> l1 == l2
  }

  /** The ids handed out so far are all below `n`. */
  ghost predicate IdsBelow(links: seq<Link>, n: nat) {
    forall l :: l in links ==> l.id < n
  }

  /** No student holds fee type `f` through two different rows. */
  ghost predicate AtMostOneRow(links: seq<Link>, f: string) {
    forall l1, l2 ::
      l1 in links && l2 in links && l1.line.feeTypeId == f && l2.line.feeTypeId == f && l1.studentId == l2.studentId
      ==> l1 == l2
  }

  /** The rows holding fee type `f`, in table order: the page's
      `select('id, student_id').eq('fee_type_id', f)`. */
  function Refs(links: seq<Link>, f: string): (r: seq<AssignmentRef>)
    ensures forall a :: a in r <==> exists l :: l in links && l.line.feeTypeId == f && RefOf(l) == a
    decreases |links|
  {
    if |links| == 0 then []
    else
      var init, l := links[..|links| - 1], links[|links| - 1];
      assert links == init + [l];
      Refs(init, f) + (if l.line.feeTypeId == f then [RefOf(l)] else [])
  }

  /** The students of some rows, `new Set(rows.map(a => a.student_id))`. */
  function Students(refs: seq<AssignmentRef>): set<string> {
    set a | a in refs :: a.studentId
  }

  /** The selected ids as a set, `new Set(selected)`. */
  function SetOf(ids: seq<string>): set<string> {
    set s | s in ids
  }

  /** The students given a new row, in the order the page pushes them: each
      selected id once, in the order first ticked, unless a row holds it. */
  function AddList(selected: seq<string>, current: set<string>): seq<string>
    decreases |selected|
  {
    if |selected| == 0 then []
    else
      var init, s := selected[..|selected| - 1], selected[|selected| - 1];
      AddList(init, current) + (if s !in current && s !in init then [s] else [])
  }

  /** The row ids deleted, in the order the page pushes them: for each
      student holding the fee who is no longer selected, the first of its
      rows (the one `find` returns). */
  function DeleteList(current: seq<AssignmentRef>, selected: set<string>): seq<nat>
    decreases |current|
  {
    if |current| == 0 then []
    else
      var init, a := current[..|current| - 1], current[|current| - 1];
      DeleteList(init, selected) + (if a.studentId !in selected && a.studentId !in Students(init) then [a.id] else [])
  }

  /** `currentAssignments.find(a => a.student_id === studentId)`. */
  function FindFirst(current: seq<AssignmentRef>, studentId: string): (r: Option<nat>)
    ensures r.None? <==> studentId !in Students(current)
    ensures r.Some? ==> r.value < |current| && current[r.value].studentId == studentId
                        && forall j :: 0 <= j < r.value ==> current[j].studentId != studentId
    decreases |current|
  {
    if |current| == 0 then None
    else if current[0].studentId == studentId then Some(0)
    else
      var rest := FindFirst(current[1..], studentId);
      assert Students(current) == {current[0].studentId} + Students(current[1..]) by {
        assert current == [current[0]] + current[1..];
      }
      if rest.Some? then Some(rest.value + 1) else None
  }

  lemma StudentsSnoc(refs: seq<AssignmentRef>, a: AssignmentRef)
    ensures Students(refs + [a]) == Students(refs) + {a.studentId}
  {
  }

  lemma SetOfSnoc(ids: seq<string>, s: string)
    ensures SetOf(ids + [s]) == SetOf(ids) + {s}
  {
  }

  /** At the first row of a student, `find` returns that very row. */
  lemma FindFirstAt(current: seq<AssignmentRef>, i: nat)
    requires i < |current|
    requires current[i].studentId !in Students(current[..i])
    ensures FindFirst(current, current[i].studentId) == Some(i)
  {
    forall j | 0 <= j < i
      ensures current[j].studentId != current[i].studentId
    {
      assert current[j] in current[..i];
    }
    assert current[i] in current;
  }

  /** `handleAssignStudentsToFee`'s diff: the students to add (the selected
      ones no row holds), the rows to delete (the first row of each holder
      no longer selected) and the students whose total is then recomputed. */
  method ComputeAssignmentDiff(current: seq<AssignmentRef>, selected: seq<string>)
    returns (toAdd: seq<string>, toDelete: seq<nat>, recalc: set<string>)
    ensures toAdd == AddList(selected, Students(current))
    ensures toDelete == DeleteList(current, SetOf(selected))
    ensures recalc == (SetOf(selected) - Students(current)) + (Students(current) - SetOf(selected))
  {
    var currentIds := Students(current);
    var selectedSet := SetOf(selected);
    toAdd, toDelete, recalc := [], [], {};
    // The selected set, walked in insertion order: each id at its first tick.
    var i := 0;
    while i < |selected|
      invariant 0 <= i <= |selected|
      invariant toAdd == AddList(selected[..i], currentIds)
      invariant recalc == SetOf(selected[..i]) - currentIds
    {
      var studentId := selected[i];
      AddStep(selected, i, currentIds);
      if studentId !in selected[..i] && studentId !in currentIds {
        toAdd := toAdd + [studentId];
        recalc := recalc + {studentId};
      }
      i := i + 1;
    }
    assert selected[..i] == selected;
    // The current set, walked in insertion order: each holder at its first row.
    ghost var added := recalc;
    var seen: set<string> := {};
    var j := 0;
    while j < |current|
      invariant 0 <= j <= |current|
      invariant seen == Students(current[..j])
      invariant toDelete == DeleteList(current[..j], selectedSet)
      invariant recalc == added + (Students(current[..j]) - selectedSet)
    {
      var studentId := current[j].studentId;
      DeleteStep(current, j, selectedSet);
      if studentId !in seen && studentId !in selectedSet {
        var assignmentToDelete := FindFirst(current, studentId);
        FindFirstAt(current, j);
        if assignmentToDelete.Some? {
          toDelete := toDelete + [current[assignmentToDelete.value].id];
          recalc := recalc + {studentId};
        }
      }
      seen := seen + {studentId};
      j := j + 1;
    }
    assert current[..j] == current;
  }

  /** Walking one more selected id: it joins the added students and the
      students to recompute when it is new and no row holds it. */
  lemma AddStep(selected: seq<string>, i: nat, currentIds: set<string>)
    requires i < |selected|
    ensures var s, isNew := selected[i], selected[i] !in selected[..i] && selected[i] !in currentIds;
            AddList(selected[..i + 1], currentIds) == AddList(selected[..i], currentIds) + (if isNew then [s] else [])
            && SetOf(selected[..i + 1]) - currentIds == (SetOf(selected[..i]) - currentIds) + (if isNew then {s} else {})
  {
    assert selected[..i + 1][..i] == selected[..i];
    assert selected[..i + 1] == selected[..i] + [selected[i]];
    SetOfSnoc(selected[..i], selected[i]);
  }

  /** Walking one more current row: its student joins the holders seen, and
      its id joins the deletions when that student is unselected and seen
      for the first time. */
  lemma DeleteStep(current: seq<AssignmentRef>, j: nat, selected: set<string>)
    requires j < |current|
    ensures Students(current[..j + 1]) == Students(current[..j]) + {current[j].studentId}
    ensures var a := current[j];
            DeleteList(current[..j + 1], selected)
            == DeleteList(current[..j], selected)
               + (if a.studentId !in selected && a.studentId !in Students(current[..j]) then [a.id] else [])
  {
    assert current[..j + 1][..j] == current[..j];
    assert current[..j + 1] == current[..j] + [current[j]];
    StudentsSnoc(current[..j], current[j]);
  }

  /** The students added are exactly the selected ones no row holds, each once. */
  lemma {:induction false} AddListMeaning(selected: seq<string>, current: set<string>)
    ensures forall s :: s in AddList(selected, current) <==> s in selected && s !in current
    ensures Distinct(AddList(selected, current))
    decreases |selected|
  {
    if |selected| > 0 {
      var init, s := selected[..|selected| - 1], selected[|selected| - 1];
      AddListMeaning(init, current);
      assert selected == init + [s];
    }
  }

  /** Every id deleted is that of a row of a holder no longer selected. */
  lemma {:induction false} DeleteListSound(current: seq<AssignmentRef>, selected: set<string>)
    ensures forall x :: x in DeleteList(current, selected) ==>
              exists a :: a in current && a.id == x && a.studentId !in selected
    decreases |current|
  {
    if |current| > 0 {
      var init, a := current[..|current| - 1], current[|current| - 1];
      DeleteListSound(init, selected);
      assert current == init + [a];
    }
  }

  /** Every holder no longer selected loses one of its rows. */
  lemma {:induction false} DeleteListComplete(current: seq<AssignmentRef>, selected: set<string>)
    ensures forall t :: t in Students(current) && t !in selected ==>
              exists a :: a in current && a.studentId == t && a.id in DeleteList(current, selected)
    decreases |current|
  {
    if |current| > 0 {
      var init, a := current[..|current| - 1], current[|current| - 1];
      DeleteListComplete(init, selected);
      assert current == init + [a];
      StudentsSnoc(init, a);
    }
  }

  /** The students holding fee type `f` are those of its rows. */
  lemma StudentsOfRefs(links: seq<Link>, f: string)
    ensures forall s :: s in Students(Refs(links, f)) <==> HasRow(links, f, s)
  {
    forall s | HasRow(links, f, s)
      ensures s in Students(Refs(links, f))
    {
      var l :| l in links && l.line.feeTypeId == f && l.studentId == s;
      assert RefOf(l) in Refs(links, f);
    }
  }

  /** The line inserted for a newly assigned student: the fee type's default
      amount (`default_amount || 0`), no discount. */
  function NewLine(ft: FeeType): (r: FeeLine)
    ensures r.feeTypeId == ft.id && r.feeType == Some(ft)
    ensures r.assignedAmount == Some(OrElse(Some(ft.defaultAmount), 0.0)) && r.discount == Some(0.0)
  {
    FeeLine(ft.id, Some(OrElse(Some(ft.defaultAmount), 0.0)), Some(0.0), None, None, Some(ft))
  }

  /** The rows the batch insert creates, numbered upwards from `id0`. */
  function NewLinks(students: seq<string>, ft: FeeType, id0: nat): (r: seq<Link>)
    ensures |r| == |students|
    ensures forall k :: 0 <= k < |r| ==> r[k] == Link(id0 + k, students[k], NewLine(ft))
  {
    seq(|students|, k requires 0 <= k < |students| => Link(id0 + k, students[k], NewLine(ft)))
  }

  /** Whether a row survives `.delete().in('id', ids)`. */
  function Kept(ids: seq<nat>): Link -> bool {
    (l: Link) => l.id !in ids
  }

  /** Whether a row holds another fee type than `f`. */
  function Other(f: string): Link -> bool {
    (l: Link) => l.line.feeTypeId != f
  }

  /** The lines of student `s`, in table order: the rows
      `recalculateStudentTotalFees` selects with `.eq('student_id', s)`. */
  function LinesOf(links: seq<Link>, s: string): (r: seq<FeeLine>)
    ensures forall x :: x in r <==> exists l :: l in links && l.studentId == s && l.line == x
    decreases |links|
  {
    if |links| == 0 then []
    else
      var init, l := links[..|links| - 1], links[|links| - 1];
      assert links == init + [l];
      LinesOf(init, s) + (if l.studentId == s then [l.line] else [])
  }

  /** The students the diff for fee type `ft` gives a new row. */
  ghost function Added(links: seq<Link>, ft: FeeType, selected: seq<string>): seq<string> {
    AddList(selected, Students(Refs(links, ft.id)))
  }

  /** The row ids the diff for fee type `ft` deletes. */
  ghost function Deleted(links: seq<Link>, ft: FeeType, selected: seq<string>): seq<nat> {
    DeleteList(Refs(links, ft.id), SetOf(selected))
  }

  /** The table after the diff for fee type `ft` is applied: the new rows
      inserted, then the rows with the listed ids deleted. */
  ghost function Applied(links: seq<Link>, ft: FeeType, selected: seq<string>, id0: nat): seq<Link> {
    Filter(links + NewLinks(Added(links, ft, selected), ft, id0), Kept(Deleted(links, ft, selected)))
  }

  /** The id of an old row is deleted only with a row of that fee type
      whose student is no longer selected, which is then that very row. */
  lemma NotDeleted(links: seq<Link>, ft: FeeType, selected: seq<string>, l: Link)
    requires UniqueIds(links)
    requires l in links && (l.line.feeTypeId != ft.id || l.studentId in selected)
    ensures l.id !in Deleted(links, ft, selected)
  {
    var current := Refs(links, ft.id);
    DeleteListSound(current, SetOf(selected));
    forall a | a in current && a.id == l.id
      ensures a == RefOf(l) && l.line.feeTypeId == ft.id
    {
      var l' :| l' in links && l'.line.feeTypeId == ft.id && RefOf(l') == a;
    }
  }

  /** Old rows of other fee types, and of selected students, are kept. */
  lemma OldRowKept(links: seq<Link>, ft: FeeType, selected: seq<string>, id0: nat, l: Link)
    requires UniqueIds(links)
    requires l in links && (l.line.feeTypeId != ft.id || l.studentId in selected)
    ensures l in Applied(links, ft, selected, id0)
  {
    NotDeleted(links, ft, selected, l);
    assert l in links + NewLinks(Added(links, ft, selected), ft, id0);
  }

  /** Every id deleted is below the next id. */
  lemma DeletedBelow(links: seq<Link>, ft: FeeType, selected: seq<string>, id0: nat)
    requires IdsBelow(links, id0)
    ensures forall x :: x in Deleted(links, ft, selected) ==> x < id0
  {
    var current := Refs(links, ft.id);
    DeleteListSound(current, SetOf(selected));
    forall a | a in current
      ensures a.id < id0
    {
      var l' :| l' in links && l'.line.feeTypeId == ft.id && RefOf(l') == a;
    }
  }

  /** A new row is never deleted: its id was not handed out before. */
  lemma NewRowKept(links: seq<Link>, ft: FeeType, selected: seq<string>, id0: nat, k: nat)
    requires IdsBelow(links, id0)
    requires k < |Added(links, ft, selected)|
    ensures NewLinks(Added(links, ft, selected), ft, id0)[k] in Applied(links, ft, selected, id0)
  {
    var n := NewLinks(Added(links, ft, selected), ft, id0);
    DeletedBelow(links, ft, selected, id0);
    assert n[k] in links + n;
  }

  /** The rows of the applied table come from the old table or the insert. */
  lemma AppliedRows(links: seq<Link>, ft: FeeType, selected: seq<string>, id0: nat, l: Link)
    requires l in Applied(links, ft, selected, id0)
    ensures l in links || l in NewLinks(Added(links, ft, selected), ft, id0)
  {
    assert l in links + NewLinks(Added(links, ft, selected), ft, id0);
  }

  /** A row of the insert, with the student it is for. */
  lemma NewRowOf(students: seq<string>, ft: FeeType, id0: nat, l: Link) returns (k: nat)
    requires l in NewLinks(students, ft, id0)
    ensures k < |students| && l == Link(id0 + k, students[k], NewLine(ft))
  {
    var n := NewLinks(students, ft, id0);
    var j :| 0 <= j < |n| && n[j] == l;
    k := j;
  }

  /** An old row of fee type `f` survives only for a selected student: the
      row of a holder no longer selected is its only one, so it is deleted. */
  lemma KeptOnlyIfSelected(links: seq<Link>, ft: FeeType, selected: seq<string>, id0: nat, l: Link)
    requires AtMostOneRow(links, ft.id)
    requires l in links && l.line.feeTypeId == ft.id
    ensures l in Applied(links, ft, selected, id0) ==> l.studentId in selected
  {
    if l.studentId !in selected {
      var current := Refs(links, ft.id);
      var toDelete := DeleteList(current, SetOf(selected));
      assert RefOf(l) in current;
      assert l.studentId in Students(current);
      DeleteListComplete(current, SetOf(selected));
      var a :| a in current && a.studentId == l.studentId && a.id in toDelete;
      var l' :| l' in links && l'.line.feeTypeId == ft.id && RefOf(l') == a;
      assert l' == l;
    }
  }

  /** When no student holds fee type `f` twice, after the diff the holders of
      `f` are exactly the selected students. */
  lemma AssignedAreSelected(links: seq<Link>, ft: FeeType, selected: seq<string>, id0: nat)
    requires UniqueIds(links) && IdsBelow(links, id0) && AtMostOneRow(links, ft.id)
    ensures forall s :: HasRow(Applied(links, ft, selected, id0), ft.id, s) <==> s in selected
  {
    var toAdd := Added(links, ft, selected);
    var after := Applied(links, ft, selected, id0);
    AddListMeaning(selected, Students(Refs(links, ft.id)));
    StudentsOfRefs(links, ft.id);
    forall s | s in selected
      ensures HasRow(after, ft.id, s)
    {
      if HasRow(links, ft.id, s) {
        var l :| l in links && l.line.feeTypeId == ft.id && l.studentId == s;
        OldRowKept(links, ft, selected, id0, l);
      } else {
        var k :| 0 <= k < |toAdd| && toAdd[k] == s;
        NewRowKept(links, ft, selected, id0, k);
        assert NewLinks(toAdd, ft, id0)[k].studentId == s;
      }
    }
    forall s | HasRow(after, ft.id, s)
      ensures s in selected
    {
      var l :| l in after && l.line.feeTypeId == ft.id && l.studentId == s;
      AppliedRows(links, ft, selected, id0, l);
      if l in links {
        KeptOnlyIfSelected(links, ft, selected, id0, l);
      } else {
        var k := NewRowOf(toAdd, ft, id0, l);
        assert toAdd[k] in toAdd;
      }
    }
  }

  /** Rows of other fee types are left as they were, in the same order. */
  lemma OthersUntouched(links: seq<Link>, ft: FeeType, selected: seq<string>, id0: nat)
    requires UniqueIds(links)
    ensures Filter(Applied(links, ft, selected, id0), Other(ft.id)) == Filter(links, Other(ft.id))
  {
    var toDelete := Deleted(links, ft, selected);
    var n := NewLinks(Added(links, ft, selected), ft, id0);
    forall l | l in links && Other(ft.id)(l)
      ensures Kept(toDelete)(l)
    {
      NotDeleted(links, ft, selected, l);
    }
    forall l | l in n
      ensures !Other(ft.id)(l)
    {
      var k := NewRowOf(Added(links, ft, selected), ft, id0, l);
    }
    FilterKeepsOthers(links, n, Kept(toDelete), Other(ft.id));
  }

  /** Filtering by `q` the rows kept by `p` from `a + b`, where `p` keeps
      every row of `a` that `q` keeps and `q` keeps no row of `b`. */
  lemma {:induction false} FilterKeepsOthers(a: seq<Link>, b: seq<Link>, p: Link -> bool, q: Link -> bool)
    requires forall l :: l in a && q(l) ==> p(l)
    requires forall l :: l in b ==> !q(l)
    ensures Filter(Filter(a + b, p), q) == Filter(a, q)
    decreases |b|, |a|
  {
    if |b| > 0 {
      var b', x := b[..|b| - 1], b[|b| - 1];
      assert a + b == (a + b') + [x];
      FilterSnoc(a + b', x, p);
      FilterKeepsOthers(a, b', p, q);
      if p(x) {
        FilterSnoc(Filter(a + b', p), x, q);
      } else {
        assert Filter(a + b, p) == Filter(a + b', p);
      }
    } else {
      assert a + b == a;
      FilterFilter(a, p, q);
    }
  }

  /** Filtering by `p` and then by `q` is filtering by `q` when `q` implies `p`. */
  lemma {:induction false} FilterFilter(a: seq<Link>, p: Link -> bool, q: Link -> bool)
    requires forall l :: l in a && q(l) ==> p(l)
    ensures Filter(Filter(a, p), q) == Filter(a, q)
    decreases |a|
  {
    if |a| > 0 {
      var a', x := a[..|a| - 1], a[|a| - 1];
      assert a == a' + [x];
      assert x in a;
      FilterSnoc(a', x, p);
      FilterSnoc(a', x, q);
      FilterFilter(a', p, q);
      if p(x) {
        FilterSnoc(Filter(a', p), x, q);
      } else {
        assert !q(x);
        assert Filter(a, p) == Filter(a', p);
        assert Filter(a, q) == Filter(a', q);
      }
    }
  }

  /** A row of the applied table is an old row, with an id below `id0`, or
      the `k`-th new row, with id `id0 + k`. */
  lemma AppliedRowKind(links: seq<Link>, ft: FeeType, selected: seq<string>, id0: nat, l: Link) returns (k: int)
    requires IdsBelow(links, id0) && l in Applied(links, ft, selected, id0)
    ensures var toAdd := Added(links, ft, selected);
            (k == -1 && l in links && l.id < id0)
            || (0 <= k < |toAdd| && l == Link(id0 + k, toAdd[k], NewLine(ft)))
  {
    AppliedRows(links, ft, selected, id0, l);
    if l in links {
      k := -1;
    } else {
      k := NewRowOf(Added(links, ft, selected), ft, id0, l);
    }
  }

  /** The applied table keeps row ids below the next id. */
  lemma AppliedIdsBelow(links: seq<Link>, ft: FeeType, selected: seq<string>, id0: nat)
    requires IdsBelow(links, id0)
    ensures IdsBelow(Applied(links, ft, selected, id0), id0 + |Added(links, ft, selected)|)
  {
    forall l | l in Applied(links, ft, selected, id0)
      ensures l.id < id0 + |Added(links, ft, selected)|
    {
      var k := AppliedRowKind(links, ft, selected, id0, l);
    }
  }

  /** The applied table keeps row ids unique. */
  lemma AppliedIdsUnique(links: seq<Link>, ft: FeeType, selected: seq<string>, id0: nat)
    requires UniqueIds(links) && IdsBelow(links, id0)
    ensures UniqueIds(Applied(links, ft, selected, id0))
  {
    var after := Applied(links, ft, selected, id0);
    forall l1, l2 | l1 in after && l2 in after && l1.id == l2.id
      ensures l1 == l2
    {
      SameIdSameRow(links, ft, selected, id0, l1, l2);
    }
  }

  /** Two rows of the applied table with the same id are the same row. */
  lemma SameIdSameRow(links: seq<Link>, ft: FeeType, selected: seq<string>, id0: nat, l1: Link, l2: Link)
    requires UniqueIds(links) && IdsBelow(links, id0)
    requires l1 in Applied(links, ft, selected, id0) && l2 in Applied(links, ft, selected, id0)
    requires l1.id == l2.id
    ensures l1 == l2
  {
    var k1 := AppliedRowKind(links, ft, selected, id0, l1);
    var k2 := AppliedRowKind(links, ft, selected, id0, l2);
    if k1 >= 0 && k2 >= 0 {
      assert k1 == k2;
    }
  }

  /** The applied table still links no student to fee type `f` twice. */
  lemma AppliedAtMostOne(links: seq<Link>, ft: FeeType, selected: seq<string>, id0: nat)
    requires AtMostOneRow(links, ft.id)
    ensures AtMostOneRow(Applied(links, ft, selected, id0), ft.id)
  {
    var toAdd := Added(links, ft, selected);
    var n := NewLinks(toAdd, ft, id0);
    var after := Applied(links, ft, selected, id0);
    AddListMeaning(selected, Students(Refs(links, ft.id)));
    StudentsOfRefs(links, ft.id);
    forall l1, l2 | l1 in after && l2 in after && l1.line.feeTypeId == ft.id && l2.line.feeTypeId == ft.id
                    && l1.studentId == l2.studentId
      ensures l1 == l2
    {
      AppliedRows(links, ft, selected, id0, l1);
      AppliedRows(links, ft, selected, id0, l2);
      if l1 in links && l2 !in links {
        var k := NewRowOf(toAdd, ft, id0, l2);
        assert HasRow(links, ft.id, toAdd[k]);
      } else if l1 !in links && l2 in links {
        var k := NewRowOf(toAdd, ft, id0, l1);
        assert HasRow(links, ft.id, toAdd[k]);
      } else if l1 !in links && l2 !in links {
        var k1 := NewRowOf(toAdd, ft, id0, l1);
        var k2 := NewRowOf(toAdd, ft, id0, l2);
      }
    }
  }

  /** What applying the diff makes of the table: ids stay unique and below
      the next id, rows of other fee types and of selected holders stay, and
      when no student held `f` twice, the holders of `f` become exactly the
      selected students, each through one row. */
  lemma AppliedFacts(links: seq<Link>, ft: FeeType, selected: seq<string>, id0: nat)
    requires UniqueIds(links) && IdsBelow(links, id0)
    ensures var after := Applied(links, ft, selected, id0);
            UniqueIds(after) && IdsBelow(after, id0 + |Added(links, ft, selected)|)
            && Filter(after, Other(ft.id)) == Filter(links, Other(ft.id))
            && (forall l :: l in links && l.line.feeTypeId == ft.id && l.studentId in selected ==> l in after)
            && (AtMostOneRow(links, ft.id) ==>
                  AtMostOneRow(after, ft.id) && forall s :: HasRow(after, ft.id, s) <==> s in selected)
  {
    AppliedIdsBelow(links, ft, selected, id0);
    AppliedIdsUnique(links, ft, selected, id0);
    OthersUntouched(links, ft, selected, id0);
    forall l | l in links && l.line.feeTypeId == ft.id && l.studentId in selected
      ensures l in Applied(links, ft, selected, id0)
    {
      OldRowKept(links, ft, selected, id0, l);
    }
    if AtMostOneRow(links, ft.id) {
      AssignedAreSelected(links, ft, selected, id0);
      AppliedAtMostOne(links, ft, selected, id0);
    }
  }

  /** Inserting no students leaves the table as it is. */
  lemma NoNewLinks(links: seq<Link>, students: seq<string>, ft: FeeType, id0: nat)
    requires |students| == 0
    ensures links + NewLinks(students, ft, id0) == links
  {
  }

  /** The students whose total the diff recomputes are those whose holding
      of fee type `ft` changes: selected and not holding it, or holding it
      and no longer selected. */
  lemma RecalcMeaning(links: seq<Link>, ft: FeeType, selected: seq<string>, recalc: set<string>)
    requires var current := Students(Refs(links, ft.id));
             recalc == (SetOf(selected) - current) + (current - SetOf(selected))
    ensures forall s :: s in recalc <==> (s in selected) != HasRow(links, ft.id, s)
  {
    StudentsOfRefs(links, ft.id);
  }

  /** The diff for fee type `ft` computed from the rows of table `links`
      that hold it, with the meaning of the students to recompute. */
  method DiffFor(links: seq<Link>, ft: FeeType, selected: seq<string>)
    returns (toAdd: seq<string>, toDelete: seq<nat>, recalc: set<string>)
    ensures toAdd == Added(links, ft, selected)
    ensures toDelete == Deleted(links, ft, selected)
    ensures forall s :: s in recalc <==> (s in selected) != HasRow(links, ft.id, s)
  {
    var currentAssignments := Refs(links, ft.id);
    toAdd, toDelete, recalc := ComputeAssignmentDiff(currentAssignments, selected);
    RecalcMeaning(links, ft, selected, recalc);
  }

  /** The insert of the new rows, issued only when there are some. */
  method InsertRows(links: seq<Link>, students: seq<string>, ft: FeeType, id0: nat) returns (r: seq<Link>)
    ensures r == links + NewLinks(students, ft, id0)
  {
    if |students| > 0 {
      r := links + NewLinks(students, ft, id0);
    } else {
      NoNewLinks(links, students, ft, id0);
      r := links;
    }
  }

  /** The delete of the listed row ids, issued only when there are some. */
  method DeleteRows(links: seq<Link>, ids: seq<nat>) returns (r: seq<Link>)
    ensures r == Filter(links, Kept(ids))
  {
    if |ids| > 0 {
      r := Filter(links, Kept(ids));
    } else {
      FilterAll(links, Kept(ids));
      r := links;
    }
  }

  /** The `student_fee_types` table of one school and the cached
      `total_fees` of its students, with the id the next inserted row gets. */
  class FeeStore {
    var links: seq<Link>
    var totalFees: map<string, real>
    var nextId: nat

    /** Row ids are unique and below the next id. */
    ghost predicate Valid()
      reads this
    {
      UniqueIds(links) && IdsBelow(links, nextId)
    }

    constructor (totals: map<string, real>)
      ensures Valid()
      ensures links == [] && totalFees == totals && nextId == 0
    {
      links := [];
      totalFees := totals;
      nextId := 0;
    }

    /** `recalculateStudentTotalFees`: sums the student's lines and stores
        the sum as that student's `total_fees`, leaving the rest as it was. */
    method RecalculateStudentTotalFees(studentId: string) returns (total: real)
      modifies this
      ensures total == Sum(LinesOf(links, studentId), RecalcNet)
      ensures totalFees == old(totalFees)[studentId := total]
      ensures links == old(links) && nextId == old(nextId)
    {
      var studentFeeTypes := LinesOf(links, studentId);
      total := FeeTypes.RecalculateTotal(studentFeeTypes);
      totalFees := totalFees[studentId := total];
    }

    /** `handleAssignStudentsToFee`: refused without a fee type, a school or
        a class; otherwise inserts a row for each selected student no row
        holds, deletes the first row of each holder no longer selected, and
        recomputes the total of every student added or removed. */
    method AssignStudentsToFee(feeTypeToAssign: Option<FeeType>, schoolSelected: bool, classSelected: bool,
                               selected: seq<string>)
      returns (done: bool)
      requires Valid()
      modifies this
      ensures Valid()
      ensures done <==> feeTypeToAssign.Some? && schoolSelected && classSelected
      ensures !done ==> links == old(links) && totalFees == old(totalFees) && nextId == old(nextId)
      ensures done ==> links == Applied(old(links), feeTypeToAssign.value, selected, old(nextId))
      ensures done ==> var f := feeTypeToAssign.value.id;
                       Filter(links, Other(f)) == Filter(old(links), Other(f))
                       && (forall l :: l in old(links) && l.line.feeTypeId == f && l.studentId in selected ==> l in links)
                       && (AtMostOneRow(old(links), f) ==>
                             AtMostOneRow(links, f) && forall s :: HasRow(links, f, s) <==> s in selected)
      ensures done ==> forall s :: (s in selected) != old(HasRow(links, feeTypeToAssign.value.id, s)) ==>
                         s in totalFees && totalFees[s] == Sum(LinesOf(links, s), RecalcNet)
      ensures done ==> forall s :: (s in selected) == old(HasRow(links, feeTypeToAssign.value.id, s)) ==>
                         (s in totalFees <==> s in old(totalFees))
                         && (s in old(totalFees) ==> totalFees[s] == old(totalFees)[s])
    {
      if feeTypeToAssign.None? || !schoolSelected || !classSelected {
        return false;
      }
      var ft := feeTypeToAssign.value;
      ghost var links0, id0, fees0 := links, nextId, totalFees;
      var studentsToRecalculateFees := ApplyAssignmentDiff(ft, selected);
      AppliedFacts(links0, ft, selected, id0);
      RecalculateAll(studentsToRecalculateFees);
      forall s | (s in selected) == HasRow(links0, ft.id, s)
        ensures (s in totalFees <==> s in fees0) && (s in fees0 ==> totalFees[s] == fees0[s])
      {
        assert s !in studentsToRecalculateFees;
      }
      done := true;
    }

    /** The diff for fee type `ft` and its insert and delete: returns the
        students whose total must be recomputed, those added or removed. */
    method ApplyAssignmentDiff(ft: FeeType, selected: seq<string>) returns (recalc: set<string>)
      modifies this
      ensures links == Applied(old(links), ft, selected, old(nextId))
      ensures nextId == old(nextId) + |Added(old(links), ft, selected)|
      ensures totalFees == old(totalFees)
      ensures forall s :: s in recalc <==> (s in selected) != HasRow(old(links), ft.id, s)
    {
      var toAdd, toDelete;
      toAdd, toDelete, recalc := DiffFor(links, ft, selected);
      var inserted := InsertRows(links, toAdd, ft, nextId);
      links := DeleteRows(inserted, toDelete);
      nextId := nextId + |toAdd|;
    }

    /** Recomputes the total of each listed student, in any order: each
        write touches that student's entry only. */
    method RecalculateAll(students: set<string>)
      modifies this
      ensures links == old(links) && nextId == old(nextId)
      ensures forall s :: s in students ==> s in totalFees && totalFees[s] == Sum(LinesOf(links, s), RecalcNet)
      ensures forall s :: s !in students ==>
                (s in totalFees <==> s in old(totalFees)) && (s in old(totalFees) ==> totalFees[s] == old(totalFees)[s])
    {
      var pending := students;
      while pending != {}
        invariant pending <= students
        invariant links == old(links) && nextId == old(nextId)
        invariant forall s :: s in students - pending ==>
                    s in totalFees && totalFees[s] == Sum(LinesOf(links, s), RecalcNet)
        invariant forall s :: s !in students - pending ==>
                    (s in totalFees <==> s in old(totalFees)) && (s in old(totalFees) ==> totalFees[s] == old(totalFees)[s])
        decreases pending
      {
        var studentId :| studentId in pending;
        var total := RecalculateStudentTotalFees(studentId);
        pending := pending - {studentId};
      }
    }
  }
}
