/**
 * The class representative's dashboard: marking one session of one of the
 * class's subjects, submitting it to the shared log, and browsing the history.
 */
module RepDashboard {
  import opened Wrappers
  import opened Seqs
  import opened Types
  import opened Cohorts
  import opened Attendance
  import opened AdminReports
  import opened App

  /** `classmates.forEach(s => m[s.id] = value)` on an empty map. */
  method AllMarked(classmates: seq<Student>, value: bool) returns (m: map<string, bool>)
    ensures forall id :: id in m <==> id in Map(classmates, StudentIdOf)
    ensures forall id :: id in m ==> m[id] == value
  {
    m := map[];
    for i := 0 to |classmates|
      invariant forall id :: id in m <==> id in Map(classmates[..i], StudentIdOf)
      invariant forall id :: id in m ==> m[id] == value
    {
      assert Map(classmates[..i + 1], StudentIdOf) == Map(classmates[..i], StudentIdOf) + [classmates[i].id];
      m := m[classmates[i].id := value];
    }
    assert classmates[..|classmates|] == classmates;
  }

  /** `attendanceMap[id]` as a condition: a missing entry counts as absent. */
  predicate MarkedPresent(marks: map<string, bool>, id: string) {
    id in marks && marks[id]
  }

  /** `toggleStudent`: `{ ...prev, [id]: !prev[id] }`. */
  function Toggle(marks: map<string, bool>, id: string): (r: map<string, bool>)
    ensures r.Keys == marks.Keys + {id}
    ensures MarkedPresent(r, id) == !MarkedPresent(marks, id)
    ensures forall x :: x != id ==> (x in r <==> x in marks) && MarkedPresent(r, x) == MarkedPresent(marks, x)
  {
    marks[id := !MarkedPresent(marks, id)]
  }

  /**
   * Toggling twice gives every student their first mark back; the map itself
   * comes back unchanged when the student already had an entry.
   */
  lemma ToggleTwice(marks: map<string, bool>, id: string)
    ensures forall x :: MarkedPresent(Toggle(Toggle(marks, id), id), x) == MarkedPresent(marks, x)
    ensures id in marks ==> Toggle(Toggle(marks, id), id) == marks
  {
  }

  /** `Object.values(attendanceMap).filter(Boolean).length`. */
  function PresentMarks(marks: map<string, bool>): nat {
    |set id | id in marks && marks[id]|
  }

  /** The record submitted for one classmate. */
  function SubmittedRecord(stamp: string, date: string, courseId: string, marks: map<string, bool>, markedBy: string): (f: Student -> AttendanceRecord)
    ensures forall s :: f(s) == AttendanceRecord("att_" + stamp + "_" + s.id, date, courseId, s.id,
      if MarkedPresent(marks, s.id) then Present else Absent, markedBy)
  {
    (s: Student) => AttendanceRecord("att_" + stamp + "_" + s.id, date, courseId, s.id,
      if MarkedPresent(marks, s.id) then Present else Absent, markedBy)
  }

  /** The records `handleSubmit` appends: one per classmate, in order. */
  function Submission(classmates: seq<Student>, stamp: string, date: string, courseId: string, marks: map<string, bool>, markedBy: string): (r: seq<AttendanceRecord>)
    ensures |r| == |classmates|
    ensures forall i :: 0 <= i < |r| ==>
      (&& r[i].studentId == classmates[i].id && r[i].date == date && r[i].courseId == courseId
       && r[i].markedBy == markedBy && (r[i].status == Present <==> MarkedPresent(marks, classmates[i].id)))
  {
    Map(classmates, SubmittedRecord(stamp, date, courseId, marks, markedBy))
  }

  /**
   * The present count sent with the insight request equals the number of
   * PRESENT records submitted, when the marks are only for classmates and
   * the classmates' ids are distinct.
   */
  lemma SubmissionPresentCount(classmates: seq<Student>, stamp: string, date: string, courseId: string, marks: map<string, bool>, markedBy: string)
    requires Distinct(Map(classmates, StudentIdOf))
    requires forall id :: id in marks ==> id in Map(classmates, StudentIdOf)
    ensures PresentCount(Submission(classmates, stamp, date, courseId, marks, markedBy)) == PresentMarks(marks)
  {
    var records := Submission(classmates, stamp, date, courseId, marks, markedBy);
    var ids := Map(classmates, StudentIdOf);
    assert Map(records, RecordStudent) == ids;
    var present := Filter(records, IsPresent);
    FilterMapDistinct(records, IsPresent, RecordStudent);
    var presentIds := Map(present, RecordStudent);
    DistinctCard(presentIds);
    assert ToSet(presentIds) == set id | id in marks && marks[id] by {
      forall id | id in ToSet(presentIds) ensures id in marks && marks[id] {
        var k :| 0 <= k < |presentIds| && presentIds[k] == id;
        assert present[k] in records;
        var m :| 0 <= m < |records| && records[m] == present[k];
      }
      forall id | id in marks && marks[id] ensures id in ToSet(presentIds) {
        var m :| 0 <= m < |ids| && ids[m] == id;
        assert records[m] in present;
        var k :| 0 <= k < |present| && present[k] == records[m];
        assert presentIds[k] == id;
      }
    }
  }

  /**
   * Submitting a session the log has no record of keeps one record per
   * student, subject and date, provided the classmates' ids are distinct.
   */
  lemma SubmissionKeepsOneRecordPerSlot(log: seq<AttendanceRecord>, classmates: seq<Student>, stamp: string, date: string, courseId: string, marks: map<string, bool>, markedBy: string)
    requires OneRecordPerSlot(log)
    requires Distinct(Map(classmates, StudentIdOf))
    requires forall x :: x in log ==> !(x.courseId == courseId && x.date == date)
    ensures OneRecordPerSlot(log + Submission(classmates, stamp, date, courseId, marks, markedBy))
  {
    var added := Submission(classmates, stamp, date, courseId, marks, markedBy);
    var all := log + added;
    forall i, j | 0 <= i < j < |all| ensures DifferentSlot(all[i], all[j]) {
      if j < |log| {
        assert DifferentSlot(log[i], log[j]);
      } else if i < |log| {
        assert all[i] in log;
      } else {
        assert Map(classmates, StudentIdOf)[i - |log|] != Map(classmates, StudentIdOf)[j - |log|];
      }
    }
  }

  /** After a submission for a non-empty class, its date is a session of the subject. */
  lemma SubmissionAddsSession(log: seq<AttendanceRecord>, classmates: seq<Student>, stamp: string, date: string, courseId: string, marks: map<string, bool>, markedBy: string)
    requires classmates != []
    ensures date in SessionDates(SubjectRecords(log + Submission(classmates, stamp, date, courseId, marks, markedBy), courseId))
  {
    var all := log + Submission(classmates, stamp, date, courseId, marks, markedBy);
    var r := all[|log|];
    assert r in all && r.courseId == courseId && r.date == date;
    assert r in SubjectRecords(all, courseId);
  }

  /** `courses.find(c => c.id === id)?.name || 'Unknown'`. */
  function CourseName(courses: seq<Course>, id: string): (r: string)
    ensures r != ""
    ensures r != "Unknown" ==> exists c :: c in courses && c.id == id && c.name == r
    ensures FindCourse(courses, id).Some? && FindCourse(courses, id).value.name != "" ==> r == FindCourse(courses, id).value.name
  {
    match FindCourse(courses, id)
    case Some(c) => if c.name != "" then c.name else "Unknown"
    case None => "Unknown"
  }

  /** What the dashboard sends to the insight service after a submission. */
  datatype InsightRequest = InsightRequest(courseName: string, totalStudents: nat, presentCount: nat, date: string)

  datatype ViewMode = MarkView | HistoryView

  /** The two tabs of a history subject: per-student statistics or the list of sessions. */
  datatype HistoryTab = StudentsTab | SessionsTab

  /** The dashboard's own state, one field per `useState` of the screen. */
  datatype DashboardState = DashboardState(
    viewMode: ViewMode,
    selectedCourseId: Option<string>,
    attendanceMap: map<string, bool>,
    submissionDate: string,
    insight: Option<string>,
    historySubjectId: Option<string>,
    historySubView: HistoryTab,
    viewSessionDate: Option<string>)

  /**
   * The dashboard; `store` holds the shared lists, `user` is the signed-in
   * CR. Every handler states its new state as the old one with the fields
   * it sets replaced, so every other field is kept.
   */
  class CRPanel {
    const store: Store
    const user: Student
    var state: DashboardState

    /** Every mark is for a classmate: the marks come from the class list and its rows. */
    predicate Valid()
      reads this, store
    {
      forall id :: id in state.attendanceMap ==> id in Map(Classmates(store.students, user), StudentIdOf)
    }

    /** The dashboard opens on the marking view with today's date and nothing selected. */
    constructor (store: Store, user: Student, today: string)
      ensures this.store == store && this.user == user && Valid()
      ensures state == DashboardState(MarkView, None, map[], today, None, None, StudentsTab, None)
    {
      this.store := store;
      this.user := user;
      state := DashboardState(MarkView, None, map[], today, None, None, StudentsTab, None);
    }

    /** `handleStartAttendance`: open a subject with every classmate marked present. */
    method StartAttendance(courseId: string)
      requires Valid()
      modifies this
      ensures Valid()
      ensures state == old(state).(selectedCourseId := Some(courseId), attendanceMap := state.attendanceMap, insight := None)
      ensures forall s :: s in Classmates(store.students, user) ==> MarkedPresent(state.attendanceMap, s.id)
      ensures PresentMarks(state.attendanceMap) == |ToSet(Map(Classmates(store.students, user), StudentIdOf))|
    {
      var classmates := Classmates(store.students, user);
      var marks := AllMarked(classmates, true);
      assert (set id | id in marks && marks[id]) == ToSet(Map(classmates, StudentIdOf));
      forall s | s in classmates ensures MarkedPresent(marks, s.id) {
        var k :| 0 <= k < |classmates| && classmates[k] == s;
        assert Map(classmates, StudentIdOf)[k] == s.id;
      }
      state := state.(selectedCourseId := Some(courseId), attendanceMap := marks, insight := None);
    }

    /** The "Mark All Present" and "Mark All Absent" buttons. */
    method MarkAll(present: bool)
      requires Valid()
      modifies this
      ensures Valid()
      ensures state == old(state).(attendanceMap := state.attendanceMap)
      ensures forall id :: id in state.attendanceMap <==> id in Map(Classmates(store.students, user), StudentIdOf)
      ensures forall id :: id in state.attendanceMap ==> state.attendanceMap[id] == present
    {
      var marks := AllMarked(Classmates(store.students, user), present);
      state := state.(attendanceMap := marks);
    }

    /** A click on a classmate's row flips that classmate's mark. */
    method ToggleStudent(student: Student)
      requires Valid() && student in Classmates(store.students, user)
      modifies this
      ensures Valid() && state == old(state).(attendanceMap := Toggle(old(state).attendanceMap, student.id))
    {
      var classmates := Classmates(store.students, user);
      var k :| 0 <= k < |classmates| && classmates[k] == student;
      assert Map(classmates, StudentIdOf)[k] == student.id;
      state := state.(attendanceMap := Toggle(state.attendanceMap, student.id));
    }

    /** The date input of the marking view. */
    method SetSubmissionDate(date: string)
      requires Valid()
      modifies this
      ensures Valid() && state == old(state).(submissionDate := date)
    {
      state := state.(submissionDate := date);
    }

    /**
     * `handleSubmit` up to the insight request: without a selected subject
     * nothing happens; otherwise one record per classmate is appended to the
     * shared log, and the subject's name, the class size and the number of
     * present marks go to the insight service. One `stamp` stands for the
     * `Date.now()` the program reads for each record.
     */
    method Submit(stamp: string) returns (request: Option<InsightRequest>)
      requires Valid()
      modifies store
      ensures Valid()
      ensures !Truthy(state.selectedCourseId) ==> request == None && unchanged(store)
      ensures Truthy(state.selectedCourseId) ==>
        var classmates := Classmates(old(store.students), user);
        var marks := state.attendanceMap;
        var added := Submission(classmates, stamp, state.submissionDate, state.selectedCourseId.value, marks, user.id);
        && store.attendance == old(store.attendance) + added
        && request == Some(InsightRequest(CourseName(store.courses, state.selectedCourseId.value), |classmates|,
             PresentMarks(marks), state.submissionDate))
        && (Distinct(Map(classmates, StudentIdOf)) ==> PresentCount(added) == PresentMarks(marks))
      ensures store.students == old(store.students) && store.courses == old(store.courses)
      ensures store.assignments == old(store.assignments)
      ensures store.role == old(store.role) && store.currentUser == old(store.currentUser)
    {
      if !Truthy(state.selectedCourseId) {
        return None;
      }
      var classmates := Classmates(store.students, user);
      var courseId := state.selectedCourseId.value;
      var marks := state.attendanceMap;
      var added := Submission(classmates, stamp, state.submissionDate, courseId, marks, user.id);
      store.attendance := store.attendance + added;
      if Distinct(Map(classmates, StudentIdOf)) {
        SubmissionPresentCount(classmates, stamp, state.submissionDate, courseId, marks, user.id);
      }
      request := Some(InsightRequest(CourseName(store.courses, courseId), |classmates|, PresentMarks(marks), state.submissionDate));
    }

    /** The insight service's answer arrives and replaces the marking form. */
    method ReceiveInsight(text: string)
      requires Valid()
      modifies this
      ensures Valid() && state == old(state).(insight := Some(text))
    {
      state := state.(insight := Some(text));
    }

    /** "Return to Dashboard" and the back link: leave the subject. */
    method ReturnToDashboard()
      requires Valid()
      modifies this
      ensures Valid() && state == old(state).(selectedCourseId := None, insight := None)
    {
      state := state.(selectedCourseId := None, insight := None);
    }

    /** The "Mark Attendance" menu entry: leaves any history subject. */
    method ShowMarking()
      requires Valid()
      modifies this
      ensures Valid() && state == old(state).(viewMode := MarkView, historySubjectId := None)
    {
      state := state.(viewMode := MarkView, historySubjectId := None);
    }

    /** The "History" menu entry: leaves any subject being marked. */
    method ShowHistory()
      requires Valid()
      modifies this
      ensures Valid() && state == old(state).(viewMode := HistoryView, selectedCourseId := None, insight := None)
    {
      state := state.(viewMode := HistoryView, selectedCourseId := None, insight := None);
    }

    /** Choosing a subject card in the history view, or `None` for its back link. */
    method SelectHistorySubject(subject: Option<string>)
      requires Valid()
      modifies this
      ensures Valid() && state == old(state).(historySubjectId := subject)
    {
      state := state.(historySubjectId := subject);
    }

    /** The two tab buttons of a history subject. */
    method SelectHistoryTab(tab: HistoryTab)
      requires Valid()
      modifies this
      ensures Valid() && state == old(state).(historySubView := tab)
    {
      state := state.(historySubView := tab);
    }

    /** Opening a session from the sessions list, or `None` to close the roster. */
    method ViewSession(date: Option<string>)
      requires Valid()
      modifies this
      ensures Valid() && state == old(state).(viewSessionDate := date)
    {
      state := state.(viewSessionDate := date);
    }
  }

  /**
   * A session marked after a visit to the history: back on the marking view,
   * a subject opened with everyone present and one absentee toggled is
   * submitted as one record per classmate, and only the absentee is absent.
   */
  method MarkOneAbsentFlow(panel: CRPanel, courseId: string, absentee: Student, stamp: string)
    returns (request: Option<InsightRequest>)
    requires panel.Valid() && absentee in Classmates(panel.store.students, panel.user) && courseId != ""
    modifies panel, panel.store
    ensures panel.state.viewMode == MarkView && panel.state.selectedCourseId == Some(courseId)
    ensures forall s :: s in Classmates(panel.store.students, panel.user) ==>
      (MarkedPresent(panel.state.attendanceMap, s.id) <==> s.id != absentee.id)
    ensures panel.store.attendance == old(panel.store.attendance) + Submission(Classmates(panel.store.students, panel.user),
      stamp, panel.state.submissionDate, courseId, panel.state.attendanceMap, panel.user.id)
    ensures request.Some?
  {
    panel.ShowHistory();
    panel.ShowMarking();
    panel.StartAttendance(courseId);
    panel.ToggleStudent(absentee);
    request := panel.Submit(stamp);
  }
}
