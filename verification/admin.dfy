/**
 * The administrator's dashboard: the student register, the subject
 * library, bulk assignment of subjects to classes, and the history filters.
 * Its lists live in the shared `Store`; the forms and selections are its own.
 */
module AdminConsole {
  import opened Wrappers
  import opened Seqs
  import opened Strings
  import opened Types
  import opened Cohorts
  import opened AdminReports
  import opened Assignments
  import opened App

  // ----- the student form -----

  /** The student form's fields; year and semester hold `parseInt` of the inputs. */
  datatype StudentForm = StudentForm(
    name: string,
    rollNo: string,
    email: string,
    degree: string,
    department: string,
    year: Num,
    semester: Num,
    isCR: bool,
    password: string,
    securityQuestion: string,
    securityAnswer: string)

  /** The empty form: B.Tech, Computer Science, year 1, semester 1. */
  const BlankStudentForm := StudentForm("", "", "", "B.Tech", "Computer Science", Int(1), Int(1), false, "", "", "")

  /** After a save the class fields stay for the next entry and the rest is cleared. */
  function ClearedForm(f: StudentForm): (r: StudentForm)
    ensures r.degree == f.degree && r.department == f.department && r.year == f.year && r.semester == f.semester
    ensures r.(degree := BlankStudentForm.degree, department := BlankStudentForm.department,
               year := BlankStudentForm.year, semester := BlankStudentForm.semester) == BlankStudentForm
  {
    f.(name := "", rollNo := "", email := "", isCR := false, password := "", securityQuestion := "", securityAnswer := "")
  }

  /** `{ id, ...form }`: every form field becomes a field of the student. */
  function StudentFromForm(id: string, f: StudentForm): Student {
    Student(id, f.name, f.rollNo, f.degree, f.department, f.year, f.semester, f.isCR,
      Some(f.email), Some(f.password), Some(f.securityQuestion), Some(f.securityAnswer))
  }

  /** `o || ''` on an optional string. */
  function OrEmpty(o: Option<string>): string {
    if o.Some? then o.value else ""
  }

  /** `handleEditStudent`'s form: absent texts become empty, an empty degree or department the default. */
  function FormOf(s: Student): StudentForm {
    StudentForm(s.name, s.rollNo, OrEmpty(s.email),
      if s.degree == "" then "B.Tech" else s.degree,
      if s.department == "" then "Computer Science" else s.department,
      s.year, s.semester, s.isCR,
      OrEmpty(s.password), OrEmpty(s.securityQuestion), OrEmpty(s.securityAnswer))
  }

  /**
   * Opening a student for editing and saving without changes gives the
   * student back, provided its degree and department are set and its
   * optional texts are present.
   */
  lemma EditRoundTrip(s: Student)
    requires s.degree != "" && s.department != ""
    requires s.email.Some? && s.password.Some? && s.securityQuestion.Some? && s.securityAnswer.Some?
    ensures StudentFromForm(s.id, FormOf(s)) == s
  {
  }

  /** Saving an unchanged form turns an absent email into an empty one. */
  lemma EditFillsAbsentEmail()
    ensures var s := Student("1", "Asha", "R1", "B.Tech", "Computer Science", Int(1), Int(1), false, None, Some("p"), Some("q"), Some("a"));
      StudentFromForm(s.id, FormOf(s)).email == Some("")
  {
  }

  /** The edit branch: `{ ...s, ...form }` for the student being edited. */
  function ReplaceStudent(students: seq<Student>, id: string, f: StudentForm): (r: seq<Student>)
    ensures |r| == |students|
    ensures forall i :: 0 <= i < |students| ==> r[i] == (if students[i].id == id then StudentFromForm(id, f) else students[i])
  {
    seq(|students|, i requires 0 <= i < |students| => if students[i].id == id then StudentFromForm(id, f) else students[i])
  }

  /** Editing keeps every student's id, so ids that were distinct stay distinct. */
  lemma ReplaceKeepsIds(students: seq<Student>, id: string, f: StudentForm)
    ensures Map(ReplaceStudent(students, id, f), StudentIdOf) == Map(students, StudentIdOf)
  {
  }

  /** `students.filter(s => s.id !== id)`. */
  function WithoutStudent(students: seq<Student>, id: string): (r: seq<Student>)
    ensures forall s :: s in r <==> s in students && s.id != id
  {
    Filter(students, StudentIdNot(id))
  }

  function StudentIdNot(id: string): (p: Student -> bool)
    ensures forall s :: p(s) <==> s.id != id
  {
    (s: Student) => s.id != id
  }

  /** Deleting a student keeps the other ids distinct. */
  lemma DeleteKeepsDistinctIds(students: seq<Student>, id: string)
    requires Distinct(Map(students, StudentIdOf))
    ensures Distinct(Map(WithoutStudent(students, id), StudentIdOf))
  {
    FilterMapDistinct(students, StudentIdNot(id), StudentIdOf);
  }

  /** A student added with an id nobody has keeps the ids distinct. */
  lemma AddKeepsDistinctIds(students: seq<Student>, id: string, f: StudentForm)
    requires Distinct(Map(students, StudentIdOf)) && id !in Map(students, StudentIdOf)
    ensures Distinct(Map(students + [StudentFromForm(id, f)], StudentIdOf))
  {
    MapConcat(students, [StudentFromForm(id, f)], StudentIdOf);
  }

  // ----- generated students -----

  /** One profile the student generator returns. */
  datatype Profile = Profile(name: string, rollNo: string, email: string, isCR: bool)

  /** The password every generated student gets. */
  const GeneratedPassword := "12345"

  /**
   * The generator's post-processing: the i-th profile becomes a student with
   * id `gen_<stamp>_<i>`, the form's class, and the default password.
   */
  function GeneratedStudents(profiles: seq<Profile>, stamp: string, f: StudentForm): (r: seq<Student>)
    ensures |r| == |profiles|
    ensures forall i :: 0 <= i < |r| ==> r[i].id == "gen_" + stamp + "_" + NatToString(i)
  {
    seq(|profiles|, i requires 0 <= i < |profiles| =>
      Student("gen_" + stamp + "_" + NatToString(i), profiles[i].name, profiles[i].rollNo,
        f.degree, f.department, f.year, f.semester, profiles[i].isCR,
        Some(profiles[i].email), Some(GeneratedPassword), None, None))
  }

  /** Generated students have distinct ids, belong to the form's class and carry the default password. */
  lemma GeneratedStudentsFacts(profiles: seq<Profile>, stamp: string, f: StudentForm)
    ensures var r := GeneratedStudents(profiles, stamp, f);
      && Distinct(Map(r, StudentIdOf))
      && (f.year.Int? && f.semester.Int? ==>
            forall s :: s in r ==> InCohort(s, Cohort(f.degree, f.department, f.year, f.semester)))
      && (forall s :: s in r ==> s.password == Some(GeneratedPassword))
  {
    var r := GeneratedStudents(profiles, stamp, f);
    var ids := Map(r, StudentIdOf);
    forall i, j | 0 <= i < j < |ids| ensures ids[i] != ids[j] {
      var prefix := "gen_" + stamp + "_";
      if ids[i] == ids[j] {
        assert ids[i] == prefix + NatToString(i) && ids[j] == prefix + NatToString(j);
        assert NatToString(i) == ids[i][|prefix|..];
        assert NatToString(j) == ids[j][|prefix|..];
        NatToStringRoundTrip(i);
        NatToStringRoundTrip(j);
      }
    }
  }

  // ----- the subject library -----

  datatype CourseForm = CourseForm(name: string, code: string)

  const BlankCourseForm := CourseForm("", "")

  /** `{ ...c, ...courseForm }` for the subject being edited. */
  function ReplaceCourse(courses: seq<Course>, id: string, f: CourseForm): (r: seq<Course>)
    ensures |r| == |courses|
    ensures Map(r, CourseIdOf) == Map(courses, CourseIdOf)
    ensures forall i :: 0 <= i < |courses| && courses[i].id == id ==> r[i] == Course(id, f.name, f.code)
    ensures forall i :: 0 <= i < |courses| && courses[i].id != id ==> r[i] == courses[i]
  {
    seq(|courses|, i requires 0 <= i < |courses| => if courses[i].id == id then Course(id, f.name, f.code) else courses[i])
  }

  function CourseIdNot(id: string): (p: Course -> bool)
    ensures forall c :: p(c) <==> c.id != id
  {
    (c: Course) => c.id != id
  }

  function CourseRefNot(id: string): (p: CourseAssignment -> bool)
    ensures forall a :: p(a) <==> a.courseId != id
  {
    (a: CourseAssignment) => a.courseId != id
  }

  /** Every assignment names a subject of the library. */
  ghost predicate NoOrphans(courses: seq<Course>, assignments: seq<CourseAssignment>) {
    forall a :: a in assignments ==> exists c :: c in courses && c.id == a.courseId
  }

  /**
   * `handleDeleteCourse`'s cascade: removing a subject and every assignment
   * of it leaves no assignment pointing at it, keeps every other
   * assignment, and keeps the library free of orphans.
   */
  lemma DeleteCourseCascade(courses: seq<Course>, assignments: seq<CourseAssignment>, id: string)
    ensures var rest := Filter(assignments, CourseRefNot(id));
      && (forall a :: a in rest <==> a in assignments && a.courseId != id)
      && (NoOrphans(courses, assignments) ==> NoOrphans(Filter(courses, CourseIdNot(id)), rest))
  {
    var rest := Filter(assignments, CourseRefNot(id));
    var kept := Filter(courses, CourseIdNot(id));
    if NoOrphans(courses, assignments) {
      forall a | a in rest ensures exists c :: c in kept && c.id == a.courseId {
        var c :| c in courses && c.id == a.courseId;
        assert c in kept;
      }
    }
  }

  /** Assigning subjects taken from the library creates no orphans. */
  lemma AssignFromLibraryKeepsNoOrphans(courses: seq<Course>, assignments: seq<CourseAssignment>, selected: seq<string>, c: Cohort, ids: seq<string>)
    requires |ids| == |selected|
    requires NoOrphans(courses, assignments)
    requires forall id :: id in selected ==> exists x :: x in courses && x.id == id
    ensures NoOrphans(courses, assignments + NewAssignments(assignments, selected, c, ids))
  {
    var created := NewAssignments(assignments, selected, c, ids);
    NewAssignmentsSpec(assignments, selected, c, ids);
    forall a | a in created ensures exists x :: x in courses && x.id == a.courseId {
      var k :| 0 <= k < |created| && created[k] == a;
      assert Map(created, AssignedCourseId)[k] == a.courseId;
      assert a.courseId in Unassigned(assignments, selected, c);
    }
  }

  /**
   * The selection is not pruned when a subject is deleted, so assigning
   * right after deleting a selected subject creates an assignment of a
   * subject the library no longer has.
   */
  lemma StaleSelectionCreatesOrphan()
    ensures var c := Cohort("B.Tech", "Computer Science", Int(1), Int(1));
      var courses := Filter(InitialCourses, CourseIdNot("cs101"));
      var created := NewAssignments([], ["cs101"], c, ["a1"]);
      && |created| == 1 && created[0].courseId == "cs101"
      && !NoOrphans(courses, created)
  {
    var c := Cohort("B.Tech", "Computer Science", Int(1), Int(1));
    var courses := Filter(InitialCourses, CourseIdNot("cs101"));
    var created := NewAssignments([], ["cs101"], c, ["a1"]);
    assert ["cs101"][..0] == [] && ["a1"][..0] == [];
    assert created == [NewAssignment("a1", "cs101", c)];
    assert created[0] in created;
    forall x | x in courses ensures x.id != "cs101" {
    }
  }

  /** What the assign button reports. */
  datatype AssignOutcome = NothingSelected | InvalidClass | Assigned(count: nat) | AlreadyAssigned

  /** The administrator's dashboard; `store` holds the shared lists. */
  /** The class both pickers start on. */
  const DefaultCohort := Cohort("B.Tech", "Computer Science", Int(1), Int(1))

  /**
   * The dashboard's own state: the two forms and what they edit, the bulk
   * assign form's class and selection, and the history view's class,
   * subject and open session.
   */
  datatype AdminState = AdminState(
    form: StudentForm,
    editingStudentId: Option<string>,
    courseForm: CourseForm,
    editingCourseId: Option<string>,
    assign: Cohort,
    selectedCourseIds: seq<string>,
    hist: Cohort,
    histSubjectId: string,
    viewSessionDate: Option<string>)

  const InitialAdminState := AdminState(BlankStudentForm, None, BlankCourseForm, None, DefaultCohort, [],
    DefaultCohort, "", None)

  /**
   * The administrator's dashboard; `store` holds the shared lists. Every
   * handler states its new state as the old one with the fields it sets
   * replaced, so every other field is kept.
   */
  class AdminPanel {
    const store: Store
    var state: AdminState

    /** The selection never lists a subject twice. */
    predicate Valid()
      reads this
    {
      Distinct(state.selectedCourseIds)
    }

    constructor (store: Store)
      ensures this.store == store && Valid()
      ensures state == InitialAdminState
    {
      this.store := store;
      state := InitialAdminState;
    }

    // ----- students -----

    /** Typing into the student form. */
    method SetStudentForm(f: StudentForm)
      requires Valid()
      modifies this
      ensures Valid() && state == old(state).(form := f)
    {
      state := state.(form := f);
    }

    /**
     * `handleAddStudent`: save the edited student, or append a new one with
     * id `stamp` (`Date.now().toString()`); then clear all but the class fields.
     */
    method SaveStudent(stamp: string)
      requires Valid()
      modifies this, store
      ensures Valid()
      ensures var editing := old(state).editingStudentId;
        && (Truthy(editing) ==>
              && store.students == ReplaceStudent(old(store.students), editing.value, old(state).form)
              && state == old(state).(form := ClearedForm(old(state).form), editingStudentId := None))
        && (!Truthy(editing) ==>
              && store.students == old(store.students) + [StudentFromForm(stamp, old(state).form)]
              && state == old(state).(form := ClearedForm(old(state).form)))
      ensures store.courses == old(store.courses) && store.assignments == old(store.assignments)
      ensures store.attendance == old(store.attendance) && store.role == old(store.role)
      ensures store.currentUser == old(store.currentUser)
    {
      if Truthy(state.editingStudentId) {
        store.students := ReplaceStudent(store.students, state.editingStudentId.value, state.form);
        state := state.(editingStudentId := None);
      } else {
        store.students := store.students + [StudentFromForm(stamp, state.form)];
      }
      state := state.(form := ClearedForm(state.form));
    }

    /** `handleEditStudent`: load a student into the form. */
    method EditStudent(s: Student)
      requires Valid()
      modifies this
      ensures Valid() && state == old(state).(form := FormOf(s), editingStudentId := Some(s.id))
    {
      state := state.(form := FormOf(s), editingStudentId := Some(s.id));
    }

    /** `handleCancelStudentEdit`. */
    method CancelStudentEdit()
      requires Valid()
      modifies this
      ensures Valid() && state == old(state).(form := BlankStudentForm, editingStudentId := None)
    {
      state := state.(form := BlankStudentForm, editingStudentId := None);
    }

    /** `handleDeleteStudent`; `confirmed` is the answer to the confirmation dialog. */
    method DeleteStudent(id: string, confirmed: bool)
      requires Valid()
      modifies this, store
      ensures Valid()
      ensures !confirmed ==> unchanged(store) && state == old(state)
      ensures confirmed ==> store.students == WithoutStudent(old(store.students), id)
      ensures confirmed && old(state).editingStudentId == Some(id) ==>
        state == old(state).(form := BlankStudentForm, editingStudentId := None)
      ensures confirmed && old(state).editingStudentId != Some(id) ==> state == old(state)
      ensures store.courses == old(store.courses) && store.assignments == old(store.assignments)
      ensures store.attendance == old(store.attendance) && store.role == old(store.role)
      ensures store.currentUser == old(store.currentUser)
    {
      if confirmed {
        store.students := WithoutStudent(store.students, id);
        if state.editingStudentId == Some(id) {
          CancelStudentEdit();
        }
      }
    }

    /**
     * `handleGenerateAI` once the generator has answered with `profiles`
     * (an empty list when it failed); one `stamp` stands for the `Date.now()`
     * the generator reads for each profile.
     */
    method GenerateStudents(profiles: seq<Profile>, stamp: string)
      modifies store
      ensures store.students == old(store.students) + GeneratedStudents(profiles, stamp, state.form)
      ensures store.courses == old(store.courses) && store.assignments == old(store.assignments)
      ensures store.attendance == old(store.attendance) && store.role == old(store.role)
      ensures store.currentUser == old(store.currentUser)
    {
      store.students := store.students + GeneratedStudents(profiles, stamp, state.form);
    }

    // ----- the subject library -----

    /** Typing into the subject form. */
    method SetCourseForm(f: CourseForm)
      requires Valid()
      modifies this
      ensures Valid() && state == old(state).(courseForm := f)
    {
      state := state.(courseForm := f);
    }

    /** `handleAddCourse`: save the edited subject, or append one with id `course_<stamp>`. */
    method SaveCourse(stamp: string)
      requires Valid()
      requires !Truthy(state.editingCourseId) ==> "course_" + stamp !in Map(store.courses, CourseIdOf)
      modifies this, store
      ensures Valid()
      ensures Distinct(Map(old(store.courses), CourseIdOf)) ==> Distinct(Map(store.courses, CourseIdOf))
      ensures var editing := old(state).editingCourseId;
        && (Truthy(editing) ==>
              && store.courses == ReplaceCourse(old(store.courses), editing.value, old(state).courseForm)
              && state == old(state).(courseForm := BlankCourseForm, editingCourseId := None))
        && (!Truthy(editing) ==>
              && store.courses == old(store.courses)
                   + [Course("course_" + stamp, old(state).courseForm.name, old(state).courseForm.code)]
              && state == old(state).(courseForm := BlankCourseForm))
      ensures store.students == old(store.students) && store.assignments == old(store.assignments)
      ensures store.attendance == old(store.attendance) && store.role == old(store.role)
      ensures store.currentUser == old(store.currentUser)
    {
      if Truthy(state.editingCourseId) {
        store.courses := ReplaceCourse(store.courses, state.editingCourseId.value, state.courseForm);
        state := state.(editingCourseId := None);
      } else {
        var added := Course("course_" + stamp, state.courseForm.name, state.courseForm.code);
        MapConcat(store.courses, [added], CourseIdOf);
        if Distinct(Map(store.courses, CourseIdOf)) {
          DistinctSnoc(Map(store.courses, CourseIdOf), added.id);
        }
        store.courses := store.courses + [added];
      }
      state := state.(courseForm := BlankCourseForm);
    }

    /** `handleEditCourse`. */
    method EditCourse(c: Course)
      requires Valid()
      modifies this
      ensures Valid() && state == old(state).(courseForm := CourseForm(c.name, c.code), editingCourseId := Some(c.id))
    {
      state := state.(courseForm := CourseForm(c.name, c.code), editingCourseId := Some(c.id));
    }

    /** `handleCancelCourseEdit`. */
    method CancelCourseEdit()
      requires Valid()
      modifies this
      ensures Valid() && state == old(state).(courseForm := BlankCourseForm, editingCourseId := None)
    {
      state := state.(courseForm := BlankCourseForm, editingCourseId := None);
    }

    /**
     * `handleDeleteCourse`: remove the subject and, in cascade, its
     * assignments; attendance records and the selection are kept.
     */
    method DeleteCourse(id: string, confirmed: bool)
      requires Valid()
      modifies this, store
      ensures Valid()
      ensures !confirmed ==> unchanged(store) && state == old(state)
      ensures confirmed ==> store.courses == Filter(old(store.courses), CourseIdNot(id))
      ensures confirmed ==> store.assignments == Filter(old(store.assignments), CourseRefNot(id))
      ensures confirmed && old(state).editingCourseId == Some(id) ==>
        state == old(state).(courseForm := BlankCourseForm, editingCourseId := None)
      ensures confirmed && old(state).editingCourseId != Some(id) ==> state == old(state)
      ensures store.students == old(store.students) && store.attendance == old(store.attendance)
      ensures store.role == old(store.role) && store.currentUser == old(store.currentUser)
    {
      if confirmed {
        store.courses := Filter(store.courses, CourseIdNot(id));
        store.assignments := Filter(store.assignments, CourseRefNot(id));
        if state.editingCourseId == Some(id) {
          state := state.(courseForm := BlankCourseForm, editingCourseId := None);
        }
      }
    }

    // ----- bulk assignment -----

    /** The assign form's degree select; the selection is kept. */
    method SetAssignDegree(degree: string)
      requires Valid()
      modifies this
      ensures Valid() && state == old(state).(assign := old(state).assign.(degree := degree))
    {
      state := state.(assign := state.assign.(degree := degree));
    }

    /** The assign form's department select; the selection is kept. */
    method SetAssignDepartment(department: string)
      requires Valid()
      modifies this
      ensures Valid() && state == old(state).(assign := old(state).assign.(department := department))
    {
      state := state.(assign := state.assign.(department := department));
    }

    /** The assign form's year input, read with `parseInt`; the selection is kept. */
    method SetAssignYear(input: string)
      requires Valid()
      modifies this
      ensures Valid() && state == old(state).(assign := old(state).assign.(year := ParseInt(input)))
    {
      state := state.(assign := state.assign.(year := ParseInt(input)));
    }

    /** The assign form's semester input, read with `parseInt`; the selection is kept. */
    method SetAssignSemester(input: string)
      requires Valid()
      modifies this
      ensures Valid() && state == old(state).(assign := old(state).assign.(semester := ParseInt(input)))
    {
      state := state.(assign := state.assign.(semester := ParseInt(input)));
    }

    /** A subject's checkbox: flips its selection unless it is already assigned to the class. */
    method ToggleCourse(courseId: string)
      requires Valid()
      modifies this
      ensures Valid()
      ensures IsAssigned(store.assignments, courseId, state.assign) ==> state == old(state)
      ensures !IsAssigned(store.assignments, courseId, state.assign) ==>
        state == old(state).(selectedCourseIds := Toggled(old(state).selectedCourseIds, courseId))
    {
      if !IsAssigned(store.assignments, courseId, state.assign) {
        ToggledDistinct(state.selectedCourseIds, courseId);
        state := state.(selectedCourseIds := Toggled(state.selectedCourseIds, courseId));
      }
    }

    /** `toggleSelectAll`: select every available subject, or clear the selection. */
    method ToggleSelectAll()
      requires Valid() && Distinct(Map(store.courses, CourseIdOf))
      modifies this
      ensures Valid()
      ensures state == old(state).(selectedCourseIds :=
        SelectAll(old(state).selectedCourseIds, AvailableCourses(store.courses, store.assignments, state.assign)))
      ensures forall id :: id in state.selectedCourseIds ==> !IsAssigned(store.assignments, id, state.assign)
    {
      var available := AvailableCourses(store.courses, store.assignments, state.assign);
      AvailableDistinct(store.courses, store.assignments, state.assign);
      state := state.(selectedCourseIds := SelectAll(state.selectedCourseIds, available));
    }

    /**
     * `handleAssignMultiple`; `ids` holds the id drawn for each selected
     * subject. Nothing selected or a class year or semester that is not a
     * number changes nothing; otherwise every selected subject not yet
     * assigned to the class gets an assignment, and the selection is cleared
     * when at least one was made.
     */
    method AssignMultiple(ids: seq<string>) returns (outcome: AssignOutcome)
      requires Valid() && |ids| == |state.selectedCourseIds|
      modifies this, store
      ensures Valid()
      ensures old(state).selectedCourseIds == [] ==> outcome == NothingSelected && unchanged(store) && unchanged(this)
      ensures old(state).selectedCourseIds != [] && (state.assign.year.NaN? || state.assign.semester.NaN?) ==>
        outcome == InvalidClass && unchanged(store) && unchanged(this)
      ensures old(state).selectedCourseIds != [] && state.assign.year.Int? && state.assign.semester.Int? ==>
        var created := NewAssignments(old(store.assignments), old(state).selectedCourseIds, state.assign, ids);
        && store.assignments == old(store.assignments) + created
        && (created != [] ==> outcome == Assigned(|created|) && state == old(state).(selectedCourseIds := []))
        && (created == [] ==> outcome == AlreadyAssigned && state == old(state))
      ensures store.students == old(store.students) && store.courses == old(store.courses)
      ensures store.attendance == old(store.attendance) && store.role == old(store.role)
      ensures store.currentUser == old(store.currentUser)
    {
      if |state.selectedCourseIds| == 0 {
        return NothingSelected;
      }
      if state.assign.year.NaN? || state.assign.semester.NaN? {
        return InvalidClass;
      }
      var created, duplicateCount := PlanAssignments(store.assignments, state.selectedCourseIds, state.assign, ids);
      if |created| > 0 {
        store.assignments := store.assignments + created;
        state := state.(selectedCourseIds := []);
        outcome := Assigned(|created|);
      } else {
        outcome := AlreadyAssigned;
      }
    }

    /** `handleDeleteAssignment`. */
    method DeleteAssignment(id: string, confirmed: bool)
      modifies store
      ensures !confirmed ==> unchanged(store)
      ensures confirmed ==> store.assignments == Filter(old(store.assignments), NotAssignment(id))
      ensures store.students == old(store.students) && store.courses == old(store.courses)
      ensures store.attendance == old(store.attendance) && store.role == old(store.role)
      ensures store.currentUser == old(store.currentUser)
    {
      if confirmed {
        store.assignments := Filter(store.assignments, NotAssignment(id));
      }
    }

    // ----- attendance history -----

    /** The history view's degree select; the chosen subject is cleared. */
    method SetHistoryDegree(degree: string)
      requires Valid()
      modifies this
      ensures Valid() && state == old(state).(hist := old(state).hist.(degree := degree), histSubjectId := "")
    {
      state := state.(hist := state.hist.(degree := degree), histSubjectId := "");
    }

    /** The history view's department select; the chosen subject is cleared. */
    method SetHistoryDepartment(department: string)
      requires Valid()
      modifies this
      ensures Valid() && state == old(state).(hist := old(state).hist.(department := department), histSubjectId := "")
    {
      state := state.(hist := state.hist.(department := department), histSubjectId := "");
    }

    /** The history view's year input, read with `parseInt`; the chosen subject is cleared. */
    method SetHistoryYear(input: string)
      requires Valid()
      modifies this
      ensures Valid() && state == old(state).(hist := old(state).hist.(year := ParseInt(input)), histSubjectId := "")
    {
      state := state.(hist := state.hist.(year := ParseInt(input)), histSubjectId := "");
    }

    /** The history view's semester input, read with `parseInt`; the chosen subject is cleared. */
    method SetHistorySemester(input: string)
      requires Valid()
      modifies this
      ensures Valid() && state == old(state).(hist := old(state).hist.(semester := ParseInt(input)), histSubjectId := "")
    {
      state := state.(hist := state.hist.(semester := ParseInt(input)), histSubjectId := "");
    }

    /** A subject button of the history view. */
    method SelectHistorySubject(subject: string)
      requires Valid()
      modifies this
      ensures Valid() && state == old(state).(histSubjectId := subject)
    {
      state := state.(histSubjectId := subject);
    }

    /** Opening a session's roster, or `None` to close it. */
    method ViewSession(date: Option<string>)
      requires Valid()
      modifies this
      ensures Valid() && state == old(state).(viewSessionDate := date)
    {
      state := state.(viewSessionDate := date);
    }
  }

  function NotAssignment(id: string): (p: CourseAssignment -> bool)
    ensures forall a :: p(a) <==> a.id != id
  {
    (a: CourseAssignment) => a.id != id
  }
}
