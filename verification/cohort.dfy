/**
 * Which students belong to a class and which subjects a class takes. The
 * admin's history view and the CR's dashboard both resolve a class from a
 * degree, a department, a year and a semester, with two different rules
 * for matching assignments.
 */
module Cohorts {
  import opened Wrappers
  import opened Seqs
  import opened Types

  /** A class: degree, department, year and semester. */
  datatype Cohort = Cohort(degree: string, department: string, year: Num, semester: Num)

  /** The class a student belongs to (a CR's own class). */
  function CohortOf(s: Student): Cohort {
    Cohort(s.degree, s.department, s.year, s.semester)
  }

  /** All four fields equal under `===`. */
  predicate InCohort(s: Student, c: Cohort) {
    && s.degree == c.degree && s.department == c.department
    && SameNum(s.year, c.year) && SameNum(s.semester, c.semester)
  }

  function InCohortTest(c: Cohort): (p: Student -> bool)
    ensures forall x :: p(x) <==> InCohort(x, c)
  {
    (s: Student) => InCohort(s, c)
  }

  /** The students of class `c`, in list order (the admin's `historyStudents`). */
  function CohortStudents(students: seq<Student>, c: Cohort): (r: seq<Student>)
    ensures |r| <= |students|
    ensures forall s :: s in r <==> s in students && InCohort(s, c)
  {
    Filter(students, InCohortTest(c))
  }

  /** The CR's `classmates`: the students of the CR's own class. */
  function Classmates(students: seq<Student>, user: Student): (r: seq<Student>)
    ensures forall s :: s in r <==> s in students && InCohort(s, CohortOf(user))
  {
    CohortStudents(students, CohortOf(user))
  }

  /** A listed CR is among their own classmates exactly when their year and semester are numbers. */
  lemma OwnClassmate(students: seq<Student>, user: Student)
    ensures user in Classmates(students, user) <==> user in students && user.year.Int? && user.semester.Int?
  {
  }

  /** All four fields equal under `===`. */
  predicate AssignedTo(a: CourseAssignment, c: Cohort) {
    && a.degree == c.degree && a.department == c.department
    && SameNum(a.year, c.year) && SameNum(a.semester, c.semester)
  }

  function AssignedToTest(c: Cohort): (p: CourseAssignment -> bool)
    ensures forall x :: p(x) <==> AssignedTo(x, c)
  {
    (a: CourseAssignment) => AssignedTo(a, c)
  }

  function AssignedCourseId(a: CourseAssignment): string {
    a.courseId
  }

  /** `courses.find(c => c.id === id)`: the first library subject with the id. */
  function FindCourse(courses: seq<Course>, id: string): (r: Option<Course>)
    ensures r.Some? ==> r.value in courses && r.value.id == id
    ensures r.None? <==> forall i :: 0 <= i < |courses| ==> courses[i].id != id
    ensures forall k :: (0 <= k < |courses| && courses[k].id == id
      && (forall j :: 0 <= j < k ==> courses[j].id != id)) ==> r == Some(courses[k])
  {
    var r := Find(courses, HasKey(CourseIdOf, id));
    forall k | 0 <= k < |courses| && courses[k].id == id && (forall j :: 0 <= j < k ==> courses[j].id != id)
      ensures r == Some(courses[k])
    {
      var m :| 0 <= m < |courses| && courses[m] == r.value && courses[m].id == id
        && forall j :: 0 <= j < m ==> courses[j].id != id;
      assert m == k;
    }
    r
  }

  function CourseLookup(courses: seq<Course>): (f: CourseAssignment -> Option<Course>)
    ensures forall a :: f(a) == FindCourse(courses, a.courseId)
  {
    (a: CourseAssignment) => FindCourse(courses, a.courseId)
  }

  /**
   * The admin's `historySubjects`: for each assignment of class `c`, in
   * assignment order, the library subject it names; an assignment whose
   * subject is no longer in the library is dropped.
   */
  function CohortSubjects(assignments: seq<CourseAssignment>, courses: seq<Course>, c: Cohort): (r: seq<Course>)
    ensures forall x :: x in r ==> x in courses
    ensures forall x :: x in r <==> exists a :: a in assignments && AssignedTo(a, c) && FindCourse(courses, a.courseId) == Some(x)
    ensures |r| == |Filter(Filter(assignments, AssignedToTest(c)), InLibrary(courses))|
    ensures forall i :: 0 <= i < |r| ==>
      Some(r[i]) == FindCourse(courses, Filter(Filter(assignments, AssignedToTest(c)), InLibrary(courses))[i].courseId)
  {
    var mine := Filter(assignments, AssignedToTest(c));
    var found := Map(mine, CourseLookup(courses));
    LookupsFound(assignments, courses, c);
    SomesInOrder(found);
    FilterPresentAfterMap(mine, CourseLookup(courses), InLibrary(courses));
    Somes(found)
  }

  /** The assignments whose subject is still in the library. */
  function InLibrary(courses: seq<Course>): (p: CourseAssignment -> bool)
    ensures forall a :: p(a) <==> exists k :: 0 <= k < |courses| && courses[k].id == a.courseId
  {
    (a: CourseAssignment) => FindCourse(courses, a.courseId).Some?
  }

  lemma LookupsFound(assignments: seq<CourseAssignment>, courses: seq<Course>, c: Cohort)
    ensures var found := Map(Filter(assignments, AssignedToTest(c)), CourseLookup(courses));
      forall x :: Some(x) in found <==> exists a :: a in assignments && AssignedTo(a, c) && FindCourse(courses, a.courseId) == Some(x)
  {
    var found := Map(Filter(assignments, AssignedToTest(c)), CourseLookup(courses));
    forall x | exists a :: a in assignments && AssignedTo(a, c) && FindCourse(courses, a.courseId) == Some(x)
      ensures Some(x) in found
    {
      var a :| a in assignments && AssignedTo(a, c) && FindCourse(courses, a.courseId) == Some(x);
      LookupFound(assignments, courses, c, a);
    }
    forall x | Some(x) in found
      ensures exists a :: a in assignments && AssignedTo(a, c) && FindCourse(courses, a.courseId) == Some(x)
    {
      var i :| 0 <= i < |found| && found[i] == Some(x);
      assert Filter(assignments, AssignedToTest(c))[i] in Filter(assignments, AssignedToTest(c));
    }
  }

  lemma LookupFound(assignments: seq<CourseAssignment>, courses: seq<Course>, c: Cohort, a: CourseAssignment)
    requires a in assignments && AssignedTo(a, c)
    ensures FindCourse(courses, a.courseId) in Map(Filter(assignments, AssignedToTest(c)), CourseLookup(courses))
  {
    var mine := Filter(assignments, AssignedToTest(c));
    assert a in mine;
    var i :| 0 <= i < |mine| && mine[i] == a;
    assert Map(mine, CourseLookup(courses))[i] == FindCourse(courses, a.courseId);
  }

  /** With no orphan assignments, every assignment of the class yields its subject, in order. */
  lemma CohortSubjectsComplete(assignments: seq<CourseAssignment>, courses: seq<Course>, c: Cohort)
    requires forall a :: a in assignments ==> exists k :: 0 <= k < |courses| && courses[k].id == a.courseId
    ensures var mine := Filter(assignments, AssignedToTest(c));
      && |CohortSubjects(assignments, courses, c)| == |mine|
      && forall i :: 0 <= i < |mine| ==> CohortSubjects(assignments, courses, c)[i].id == mine[i].courseId
  {
    var mine := Filter(assignments, AssignedToTest(c));
    var found := Map(mine, CourseLookup(courses));
    forall i | 0 <= i < |found| ensures found[i].Some? {
      assert mine[i] in assignments;
    }
    SomesAllPresent(found);
  }

  /**
   * The CR's assignment rule: department, year and semester equal, and the
   * degree equal or left empty (assignments from before degrees existed).
   */
  predicate CRAssignmentMatch(a: CourseAssignment, user: Student) {
    && (a.degree == user.degree || a.degree == "")
    && a.department == user.department
    && SameNum(a.year, user.year) && SameNum(a.semester, user.semester)
  }

  function CRAssignmentTest(user: Student): (p: CourseAssignment -> bool)
    ensures forall x :: p(x) <==> CRAssignmentMatch(x, user)
  {
    (a: CourseAssignment) => CRAssignmentMatch(a, user)
  }

  function IdAmong(ids: seq<string>): (p: Course -> bool)
    ensures forall x :: p(x) <==> x.id in ids
  {
    (c: Course) => c.id in ids
  }

  /**
   * The CR's `myCourses`: the library subjects, in library order, that
   * some assignment for the CR's class names.
   */
  function MyCourses(assignments: seq<CourseAssignment>, courses: seq<Course>, user: Student): (r: seq<Course>)
    ensures |r| <= |courses| && Subsequence(r, courses)
    ensures forall x :: x in r <==>
      x in courses && exists a :: a in assignments && CRAssignmentMatch(a, user) && a.courseId == x.id
  {
    var assignedIds := Map(Filter(assignments, CRAssignmentTest(user)), AssignedCourseId);
    FilterSubsequence(courses, IdAmong(assignedIds));
    Filter(courses, IdAmong(assignedIds))
  }

  /** A library without repeats gives a subject list without repeats, however many assignments name a subject. */
  lemma MyCoursesDistinct(assignments: seq<CourseAssignment>, courses: seq<Course>, user: Student)
    requires Distinct(courses)
    ensures Distinct(MyCourses(assignments, courses, user))
  {
    var assignedIds := Map(Filter(assignments, CRAssignmentTest(user)), AssignedCourseId);
    FilterDistinct(courses, IdAmong(assignedIds));
  }

  /** Every subject the admin lists for a CR's class is also on the CR's dashboard. */
  lemma AdminSubjectsVisibleToCR(assignments: seq<CourseAssignment>, courses: seq<Course>, user: Student)
    ensures forall x :: x in CohortSubjects(assignments, courses, CohortOf(user)) ==> x in MyCourses(assignments, courses, user)
  {
    forall x | x in CohortSubjects(assignments, courses, CohortOf(user))
      ensures x in MyCourses(assignments, courses, user)
    {
      var a :| a in assignments && AssignedTo(a, CohortOf(user)) && FindCourse(courses, a.courseId) == Some(x);
      assert CRAssignmentMatch(a, user);
    }
  }

  /** The converse fails: an assignment with an empty degree reaches the CR but not the admin's list. */
  lemma EmptyDegreeOnlyForCR()
    ensures var user := Student("s1", "Asha", "R1", "B.Tech", "Physics", Int(1), Int(1), true, None, None, None, None);
      var course := Course("cs101", "Introduction to Programming", "CS101");
      var assignments := [CourseAssignment("a1", "cs101", "", "Physics", Int(1), Int(1))];
      && course in MyCourses(assignments, [course], user)
      && course !in CohortSubjects(assignments, [course], CohortOf(user))
  {
    var user := Student("s1", "Asha", "R1", "B.Tech", "Physics", Int(1), Int(1), true, None, None, None, None);
    var course := Course("cs101", "Introduction to Programming", "CS101");
    var assignments := [CourseAssignment("a1", "cs101", "", "Physics", Int(1), Int(1))];
    assert CRAssignmentMatch(assignments[0], user);
    assert !AssignedTo(assignments[0], CohortOf(user));
  }
}
