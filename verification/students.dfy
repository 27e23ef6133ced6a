/**
 * The students page: the roster, its search box, and the add, edit and delete
 * handlers with the undo offered after a delete.
 */
module Students {
  import opened Common
  import opened Seqs
  import opened Collection
  import opened Text

  datatype StudentStatus = Active | Inactive | Pending

  /** A student's fields other than `id` and `status`. */
  datatype Profile = Profile(name: string, email: string, roomNumber: string, program: string, year: string)

  type Student = Record<StudentStatus, Profile>

  /** The add dialog's fields; the status is picked in the form and starts out `Pending`. */
  datatype StudentForm = StudentForm(
    name: string, email: string, roomNumber: string, program: string, year: string, status: StudentStatus)

  /** "Please fill in all required fields". */
  datatype FormError = MissingRequiredField

  /** All five required text fields are non-empty (an empty string is falsy). */
  predicate Complete(p: Profile)
  {
    p.name != "" && p.email != "" && p.roomNumber != "" && p.program != "" && p.year != ""
  }

  /** `handleAddStudent`: validate the form, then append a student with a fresh id. */
  function AddStudent(students: seq<Student>, form: StudentForm): (r: Result<seq<Student>, FormError>)
    ensures r.Failure? <==>
      form.name == "" || form.email == "" || form.roomNumber == "" || form.program == "" || form.year == ""
    ensures r.Success? ==>
      && |r.value| == |students| + 1
      && r.value[..|students|] == students
      && r.value[|students|].id == NextId(students)
      && !HasId(students, r.value[|students|].id)
      && r.value[|students|].status == form.status
      && r.value[|students|].data == Profile(form.name, form.email, form.roomNumber, form.program, form.year)
    ensures r.Success? && UniqueIds(students) ==> UniqueIds(r.value)
  {
    var profile := Profile(form.name, form.email, form.roomNumber, form.program, form.year);
    if !Complete(profile) then Failure(MissingRequiredField)
    else Success(Create(students, form.status, profile))
  }

  /**
   * `handleEditStudent`: nothing happens without a current student; an incomplete
   * one is rejected; otherwise it replaces every student carrying its id.
   */
  function EditStudent(students: seq<Student>, current: Option<Student>): (r: Result<seq<Student>, FormError>)
    ensures current.None? ==> r == Success(students)
    ensures current.Some? ==> (r.Failure? <==> !Complete(current.value.data))
    ensures r.Success? ==> |r.value| == |students|
    ensures r.Success? && current.Some? ==>
      forall i :: 0 <= i < |students| ==>
        r.value[i] == (if students[i].id == current.value.id then current.value else students[i])
    ensures r.Success? && UniqueIds(students) ==> UniqueIds(r.value)
  {
    match current
    case None => Success(students)
    case Some(st) =>
      if !Complete(st.data) then Failure(MissingRequiredField)
      else Success(ReplaceById(students, st))
  }

  /** The search test of `filteredStudents`, applied to one student. */
  predicate Matches(st: Student, term: string)
  {
    var t := Lower(term);
    || Contains(Lower(st.data.name), t)
    || Contains(Lower(st.data.email), t)
    || Contains(Lower(st.data.roomNumber), t)
    || Contains(Lower(st.data.program), t)
  }

  /** The callback passed to `students.filter` for a given search term. */
  function MatchesTerm(term: string): Student -> bool
  {
    (st: Student) => Matches(st, term)
  }

  /** `filteredStudents`: the students matching the search term, in roster order. */
  function Search(students: seq<Student>, term: string): (r: seq<Student>)
    ensures forall i :: 0 <= i < |r| ==> r[i] in students && Matches(r[i], term)
    ensures forall i :: 0 <= i < |students| && Matches(students[i], term) ==> students[i] in r
    ensures |r| == Count(students, MatchesTerm(term))
    ensures IsSubseq(r, students)
    ensures term == "" ==> r == students
  {
    var keep := MatchesTerm(term);
    if term == "" then
      assert Lower(term) == "";
      forall i | 0 <= i < |students| ensures keep(students[i]) {
        ContainsEmpty(Lower(students[i].data.name));
      }
      FilterKeepsAll(students, keep);
      Filter(students, keep)
    else
      Filter(students, keep)
  }

  /** Two search terms that lower-case alike show the same students. */
  lemma SearchIgnoresCase(students: seq<Student>, t1: string, t2: string)
    requires Lower(t1) == Lower(t2)
    ensures Search(students, t1) == Search(students, t2)
  {
    FilterCongruence(students, MatchesTerm(t1), MatchesTerm(t2));
  }

  /** A student whose name, email, room or program contains the term verbatim is always shown. */
  lemma SearchShowsVerbatimMatch(students: seq<Student>, term: string, i: nat)
    requires i < |students|
    requires var p := students[i].data;
      Contains(p.name, term) || Contains(p.email, term) || Contains(p.roomNumber, term) || Contains(p.program, term)
    ensures students[i] in Search(students, term)
  {
    var p := students[i].data;
    if Contains(p.name, term) {
      LowerKeepsOccurrence(p.name, term);
    } else if Contains(p.email, term) {
      LowerKeepsOccurrence(p.email, term);
    } else if Contains(p.roomNumber, term) {
      LowerKeepsOccurrence(p.roomNumber, term);
    } else {
      LowerKeepsOccurrence(p.program, term);
    }
  }

  /** The page's list together with the `deletedStudent` state variable. */
  datatype StudentsState = StudentsState(students: seq<Student>, deletedStudent: Option<Student>)

  /** A delete handler's effect on the page, and the undo offered with its toast. */
  datatype StudentDeletion = StudentDeletion(state: StudentsState, undo: UndoAction<Student>)

  /**
   * `handleDeleteStudent` as written. The undo closure reads `deletedStudent`
   * from the state the handler was created in, i.e. before this deletion stored
   * the current student: on a first delete it does nothing, afterwards it
   * appends the previously deleted student.
   */
  function DeleteStudentAsWritten(page: StudentsState, current: Option<Student>): (r: StudentDeletion)
    ensures current.None? ==> r.state == page && r.undo.NoUndo?
    ensures current.Some? ==>
      && r.state.deletedStudent == current
      && !HasId(r.state.students, current.value.id)
      && IsSubseq(r.state.students, page.students)
      && |r.state.students| == |page.students| - Occurrences(page.students, current.value.id)
    ensures page.deletedStudent.None? ==> r.undo.NoUndo?
    ensures current.Some? && page.deletedStudent.Some? ==>
      && r.undo.Restore?
      && |r.undo.snapshot| == |r.state.students| + 1
      && r.undo.snapshot[..|r.state.students|] == r.state.students
      && r.undo.snapshot[|r.state.students|..] == [page.deletedStudent.value]
  {
    match current
    case None => StudentDeletion(page, NoUndo)
    case Some(st) =>
      var remaining := RemoveById(page.students, st.id);
      var undo := match page.deletedStudent
        case None => NoUndo
        case Some(previous) => Restore(remaining + [previous]);
      StudentDeletion(StudentsState(remaining, Some(st)), undo)
  }

  /**
   * `handleDeleteStudent` with the undo its authors evidently meant: clicking
   * undo appends the student this call deleted to the post-delete list.
   */
  function DeleteStudent(page: StudentsState, current: Option<Student>): (r: StudentDeletion)
    ensures current.None? ==> r.state == page && r.undo.NoUndo?
    ensures current.Some? ==>
      && r.state.deletedStudent == current
      && !HasId(r.state.students, current.value.id)
      && IsSubseq(r.state.students, page.students)
      && |r.state.students| == |page.students| - Occurrences(page.students, current.value.id)
      && r.undo.Restore?
      && |r.undo.snapshot| == |r.state.students| + 1
      && r.undo.snapshot[..|r.state.students|] == r.state.students
      && r.undo.snapshot[|r.state.students|..] == [current.value]
  {
    match current
    case None => StudentDeletion(page, NoUndo)
    case Some(st) =>
      var d := SnapshotDelete(page.students, st);
      assert d.undo.snapshot[|d.list|..] == [st];
      StudentDeletion(StudentsState(d.list, Some(st)), d.undo)
  }

  /**
   * With the intended undo, deleting a student of a roster with unique ids and
   * then clicking undo gives back the same students with unique ids, the
   * deleted one now last.
   */
  lemma DeleteStudentThenUndo(page: StudentsState, st: Student, current: seq<Student>)
    requires UniqueIds(page.students)
    requires st in page.students
    ensures var u := RunUndo(DeleteStudent(page, Some(st)).undo, current);
      && multiset(u) == multiset(page.students)
      && |u| == |page.students|
      && u[|u| - 1] == st
      && UniqueIds(u)
  {
    DeleteThenUndo(page.students, st, current);
  }

  const Ann: Student := Record(1, Active, Profile("Ann", "ann@example.com", "A-101", "Physics", "1st Year"))
  const Bob: Student := Record(2, Active, Profile("Bob", "bob@example.com", "B-205", "History", "2nd Year"))
  const Cid: Student := Record(2, Pending, Profile("Cid", "cid@example.com", "C-310", "Law", "3rd Year"))

  /**
   * As written, the first delete's undo does nothing, so the student deleted
   * first cannot be brought back; the second delete's undo brings back the
   * first student instead of the second.
   */
  lemma StaleUndoRestoresWrongStudent()
    ensures var first := DeleteStudentAsWritten(StudentsState([Ann, Bob], None), Some(Ann));
      && first.state.students == [Bob]
      && RunUndo(first.undo, first.state.students) == [Bob]
    ensures var second := DeleteStudentAsWritten(StudentsState([Bob], Some(Ann)), Some(Bob));
      && second.state.students == []
      && RunUndo(second.undo, second.state.students) == [Ann]
  {
    RemoveByIdStep([Ann, Bob], Ann.id);
    RemoveByIdStep([Bob], Ann.id);
    assert [Ann, Bob][1..] == [Bob] && [Bob][1..] == [];
    RemoveByIdStep([Bob], Bob.id);
  }

  /**
   * As written, undo can produce two students with the same id: delete Bob
   * (id 2), add Cid (who receives the freed id 2), delete Ann, click undo.
   */
  lemma StaleUndoDuplicatesId()
    ensures var afterBob := DeleteStudentAsWritten(StudentsState([Ann, Bob], None), Some(Bob));
      && afterBob.state.students == [Ann]
      && AddStudent([Ann], StudentForm("Cid", "cid@example.com", "C-310", "Law", "3rd Year", Pending))
         == Success([Ann, Cid])
      && var afterAnn := DeleteStudentAsWritten(StudentsState([Ann, Cid], afterBob.state.deletedStudent), Some(Ann));
      && RunUndo(afterAnn.undo, afterAnn.state.students) == [Cid, Bob]
      && !UniqueIds(RunUndo(afterAnn.undo, afterAnn.state.students))
  {
    RemoveByIdStep([Ann, Bob], Bob.id);
    assert [Ann, Bob][1..] == [Bob];
    RemoveByIdStep([Bob], Bob.id);
    RemoveByIdStep([Ann, Cid], Ann.id);
    assert [Ann, Cid][1..] == [Cid];
    RemoveByIdStep([Cid], Ann.id);
    assert NextId([Ann]) == 2;
    assert Create([Ann], Pending, Cid.data) == [Ann] + [Cid] == [Ann, Cid];
  }
}
