/**
 * The admin's attendance history for one class and one subject: the
 * session list, the per-student statistics and the roster of one session.
 * Sessions are counted over all records of the subject, while present
 * counts only take the records of students currently in the class.
 */
module AdminReports {
  import opened Wrappers
  import opened Seqs
  import opened Strings
  import opened Types
  import opened Attendance

  datatype AdminSession = AdminSession(date: string, totalStudents: nat, present: nat, records: seq<AttendanceRecord>)

  function StudentIdOf(s: Student): string { s.id }

  /** Some student of the list has this id. */
  ghost predicate Enrolled(classStudents: seq<Student>, sid: string) {
    exists s :: s in classStudents && s.id == sid
  }

  function AmongStudents(ids: seq<string>): (p: AttendanceRecord -> bool)
    ensures forall x :: p(x) <==> x.studentId in ids
  {
    (x: AttendanceRecord) => x.studentId in ids
  }

  /** The records of one date that belong to students of the class. */
  function ClassRecordsOn(subjectRecords: seq<AttendanceRecord>, classStudents: seq<Student>, date: string): (r: seq<AttendanceRecord>)
    ensures forall x :: x in r <==> x in subjectRecords && x.date == date && Enrolled(classStudents, x.studentId)
    ensures Subsequence(r, subjectRecords)
  {
    var ids := Map(classStudents, StudentIdOf);
    assert forall sid :: sid in ids <==> Enrolled(classStudents, sid) by {
      forall sid | Enrolled(classStudents, sid) ensures sid in ids {
        var s :| s in classStudents && s.id == sid;
        var k :| 0 <= k < |classStudents| && classStudents[k] == s;
        assert ids[k] == sid;
      }
    }
    var onDate := OnDate(subjectRecords, date);
    FilterSubsequence(onDate, AmongStudents(ids));
    SubsequenceTrans(Filter(onDate, AmongStudents(ids)), onDate, subjectRecords);
    Filter(onDate, AmongStudents(ids))
  }

  function SessionFor(subjectRecords: seq<AttendanceRecord>, classStudents: seq<Student>): (f: string -> AdminSession)
    ensures forall d :: f(d) == var valid := ClassRecordsOn(subjectRecords, classStudents, d);
      AdminSession(d, |classStudents|, PresentCount(valid), valid)
  {
    d => var valid := ClassRecordsOn(subjectRecords, classStudents, d);
      AdminSession(d, |classStudents|, PresentCount(valid), valid)
  }

  /**
   * `historySessions`: nothing without a subject; otherwise one session per
   * date on which the subject has any record, latest first, with the class
   * size, and the records and present count of the class's students.
   */
  function HistorySessions(log: seq<AttendanceRecord>, subject: string, classStudents: seq<Student>): (r: seq<AdminSession>)
    ensures subject == "" ==> r == []
    ensures subject != "" ==> |r| == |SessionDates(SubjectRecords(log, subject))|
    ensures subject != "" ==> forall i :: 0 <= i < |r| ==> r[i].date == SessionDates(SubjectRecords(log, subject))[i]
    ensures forall i, j :: 0 <= i < j < |r| ==> StrLt(r[j].date, r[i].date)
    ensures forall i :: 0 <= i < |r| ==> r[i].totalStudents == |classStudents|
    ensures forall i, x :: 0 <= i < |r| ==> (x in r[i].records <==>
      x in log && x.courseId == subject && x.date == r[i].date && Enrolled(classStudents, x.studentId))
    ensures forall i :: 0 <= i < |r| ==> r[i].present == PresentCount(r[i].records)
    ensures forall i :: 0 <= i < |r| ==> Subsequence(r[i].records, log)
  {
    if subject == "" then []
    else
      var subjectRecords := SubjectRecords(log, subject);
      var r := Map(SessionDates(subjectRecords), SessionFor(subjectRecords, classStudents));
      HistorySessionsFacts(log, subject, classStudents, r);
      r
  }

  lemma HistorySessionsFacts(log: seq<AttendanceRecord>, subject: string, classStudents: seq<Student>, r: seq<AdminSession>)
    requires r == Map(SessionDates(SubjectRecords(log, subject)), SessionFor(SubjectRecords(log, subject), classStudents))
    ensures |r| == |SessionDates(SubjectRecords(log, subject))|
    ensures forall i :: 0 <= i < |r| ==> r[i].date == SessionDates(SubjectRecords(log, subject))[i]
    ensures forall i, j :: 0 <= i < j < |r| ==> StrLt(r[j].date, r[i].date)
    ensures forall i :: 0 <= i < |r| ==> r[i].totalStudents == |classStudents|
    ensures forall i, x :: 0 <= i < |r| ==> (x in r[i].records <==>
      x in log && x.courseId == subject && x.date == r[i].date && Enrolled(classStudents, x.studentId))
    ensures forall i :: 0 <= i < |r| ==> r[i].present == PresentCount(r[i].records)
    ensures forall i :: 0 <= i < |r| ==> Subsequence(r[i].records, log)
  {
    var dates := SessionDates(SubjectRecords(log, subject));
    assert forall i :: 0 <= i < |r| ==> r[i] == SessionFor(SubjectRecords(log, subject), classStudents)(dates[i]);
    forall i | 0 <= i < |r| ensures Subsequence(r[i].records, log) {
      SubsequenceTrans(r[i].records, SubjectRecords(log, subject), log);
    }
  }

  function SlotTest(subject: string, sid: string): (p: AttendanceRecord -> bool)
    ensures forall x :: p(x) <==> x.courseId == subject && x.studentId == sid
  {
    (x: AttendanceRecord) => x.courseId == subject && x.studentId == sid
  }

  /** `attendance.filter(a => a.courseId === subject && a.studentId === sid)`, PRESENT ones counted. */
  function PresentFor(log: seq<AttendanceRecord>, subject: string, sid: string): nat {
    PresentCount(Filter(log, SlotTest(subject, sid)))
  }

  function StatFor(log: seq<AttendanceRecord>, subject: string, total: nat): (f: Student -> StudentStat)
    ensures forall s :: f(s) == StudentStat(s, PresentFor(log, subject, s.id), total, Percentage(PresentFor(log, subject, s.id), total))
  {
    (s: Student) => StudentStat(s, PresentFor(log, subject, s.id), total, Percentage(PresentFor(log, subject, s.id), total))
  }

  function StatOk(log: seq<AttendanceRecord>, subject: string, total: nat): (p: StudentStat -> bool)
    ensures forall row :: p(row) <==>
      && row.presentCount == PresentFor(log, subject, row.student.id)
      && row.totalSessions == total
      && row.percentage == Percentage(row.presentCount, total)
  {
    (row: StudentStat) =>
      && row.presentCount == PresentFor(log, subject, row.student.id)
      && row.totalSessions == total
      && row.percentage == Percentage(row.presentCount, total)
  }

  /**
   * `historyStudentStats`: nothing without a subject; otherwise one row per
   * student of the class, ordered by roll number, with the student's PRESENT
   * records in the subject, the number of sessions and the rounded percentage.
   */
  function HistoryStudentStats(log: seq<AttendanceRecord>, subject: string, classStudents: seq<Student>): (r: seq<StudentStat>)
    ensures subject == "" ==> r == []
    ensures subject != "" ==> |r| == |classStudents| && multiset(Map(r, StatStudent)) == multiset(classStudents)
    ensures SortedBy(r, StatRoll, StrLe)
    ensures forall i :: 0 <= i < |r| ==>
      && r[i].presentCount == PresentFor(log, subject, r[i].student.id)
      && r[i].totalSessions == |HistorySessions(log, subject, classStudents)|
      && r[i].percentage == Percentage(r[i].presentCount, r[i].totalSessions)
  {
    if subject == "" then []
    else
      var total := |HistorySessions(log, subject, classStudents)|;
      var rows := Map(classStudents, StatFor(log, subject, total));
      var sorted := SortBy(rows, StatRoll, StrLe);
      StatsFacts(log, subject, classStudents, total, rows, sorted);
      sorted
  }

  lemma StatsFacts(log: seq<AttendanceRecord>, subject: string, classStudents: seq<Student>, total: nat,
                   rows: seq<StudentStat>, sorted: seq<StudentStat>)
    requires rows == Map(classStudents, StatFor(log, subject, total))
    requires sorted == SortBy(rows, StatRoll, StrLe)
    ensures |sorted| == |classStudents| && multiset(Map(sorted, StatStudent)) == multiset(classStudents)
    ensures SortedBy(sorted, StatRoll, StrLe)
    ensures forall i :: 0 <= i < |sorted| ==>
      && sorted[i].presentCount == PresentFor(log, subject, sorted[i].student.id)
      && sorted[i].totalSessions == total
      && sorted[i].percentage == Percentage(sorted[i].presentCount, total)
  {
    assert Map(rows, StatStudent) == classStudents;
    MapPermutation(rows, sorted, StatStudent);
    SortByKeepsAll(rows, StatRoll, StrLe, StatOk(log, subject, total));
    StrLeTotalPreorder();
    SortBySorted(rows, StatRoll, StrLe);
  }

  /** With one record per student and session, every percentage is at most 100. */
  lemma StatsAtMost100(log: seq<AttendanceRecord>, subject: string, classStudents: seq<Student>)
    requires OneRecordPerSlot(log)
    ensures forall row :: row in HistoryStudentStats(log, subject, classStudents) ==>
      row.presentCount <= row.totalSessions && row.percentage <= 100
  {
    var r := HistoryStudentStats(log, subject, classStudents);
    forall row | row in r ensures row.presentCount <= row.totalSessions && row.percentage <= 100 {
      var sid := row.student.id;
      FilterFilter(log, HasKey(RecordCourse, subject), HasKey(RecordStudent, sid), SlotTest(subject, sid));
      PresentAtMostSessions(log, subject, sid);
    }
  }

  /** The records of one subject on one date. */
  function SessionRecords(log: seq<AttendanceRecord>, subject: string, date: string): (r: seq<AttendanceRecord>)
    ensures forall x :: x in r <==> x in log && x.courseId == subject && x.date == date
  {
    OnDate(SubjectRecords(log, subject), date)
  }

  function SlotOf(date: string, sid: string): (p: AttendanceRecord -> bool)
    ensures forall x :: p(x) <==> x.date == date && x.studentId == sid
  {
    (x: AttendanceRecord) => x.date == date && x.studentId == sid
  }

  /**
   * A session roster shows, for each student, the status of the student's
   * first record for that subject and date in log order.
   */
  lemma SessionMarkIsFirstInLog(log: seq<AttendanceRecord>, subject: string, date: string, sid: string, k: nat)
    requires k < |log| && log[k].courseId == subject && log[k].date == date && log[k].studentId == sid
    requires forall j :: 0 <= j < k ==>
      !(log[j].courseId == subject && log[j].date == date && log[j].studentId == sid)
    ensures MarkOf(SessionRecords(log, subject, date), sid) == Marked(log[k].status)
  {
    var m1 := FirstOfSubject(log, subject, date, sid, k);
    var m2 := FirstOnDate(SubjectRecords(log, subject), date, sid, m1);
  }

  /** The first record of a slot in the log is the slot's first record among the subject's records. */
  lemma FirstOfSubject(log: seq<AttendanceRecord>, subject: string, date: string, sid: string, k: nat) returns (m: nat)
    requires k < |log| && log[k].courseId == subject && log[k].date == date && log[k].studentId == sid
    requires forall j :: 0 <= j < k ==>
      !(log[j].courseId == subject && log[j].date == date && log[j].studentId == sid)
    ensures m < |SubjectRecords(log, subject)| && SubjectRecords(log, subject)[m] == log[k]
    ensures forall j :: 0 <= j < m ==>
      !(SubjectRecords(log, subject)[j].date == date && SubjectRecords(log, subject)[j].studentId == sid)
  {
    var subjectRecords := SubjectRecords(log, subject);
    FilterFirst(log, HasKey(RecordCourse, subject), SlotOf(date, sid), k);
    m :| 0 <= m < |subjectRecords| && subjectRecords[m] == log[k]
      && forall j :: 0 <= j < m ==> !SlotOf(date, sid)(subjectRecords[j]);
  }

  /** The first record of a date and student is that student's first record on the date. */
  lemma FirstOnDate(records: seq<AttendanceRecord>, date: string, sid: string, k: nat) returns (m: nat)
    requires k < |records| && records[k].date == date && records[k].studentId == sid
    requires forall j :: 0 <= j < k ==> !(records[j].date == date && records[j].studentId == sid)
    ensures m < |OnDate(records, date)| && OnDate(records, date)[m] == records[k]
    ensures forall j :: 0 <= j < m ==> OnDate(records, date)[j].studentId != sid
  {
    var session := OnDate(records, date);
    FilterFirst(records, HasKey(DateOf, date), HasKey(RecordStudent, sid), k);
    m :| 0 <= m < |session| && session[m] == records[k]
      && forall j :: 0 <= j < m ==> !HasKey(RecordStudent, sid)(session[j]);
  }

  /**
   * `sessionDetails`: nothing unless both a date and a subject are chosen;
   * otherwise the roster of the class for that session.
   */
  function SessionDetails(log: seq<AttendanceRecord>, subject: string, date: Option<string>, classStudents: seq<Student>): (r: Option<seq<RosterRow>>)
    ensures r.None? <==> !Truthy(date) || subject == ""
    ensures r.Some? ==> r.value == Roster(classStudents, SessionRecords(log, subject, date.value))
  {
    if !Truthy(date) || subject == "" then None
    else Some(Roster(classStudents, SessionRecords(log, subject, date.value)))
  }
}
