/**
 * The CR's attendance history for one subject. Unlike the admin's view,
 * session counts take every record of the date, whoever it belongs to.
 */
module CRReports {
  import opened Wrappers
  import opened Seqs
  import opened Strings
  import opened Types
  import opened Attendance
  import AdminReports

  datatype CRSession = CRSession(date: string, present: nat, total: nat)

  datatype CRHistory = CRHistory(sessions: seq<CRSession>, students: seq<StudentStat>)

  function SessionFor(subjectRecords: seq<AttendanceRecord>): (f: string -> CRSession)
    ensures forall d :: f(d) == CRSession(d, PresentCount(OnDate(subjectRecords, d)), |OnDate(subjectRecords, d)|)
  {
    d => CRSession(d, PresentCount(OnDate(subjectRecords, d)), |OnDate(subjectRecords, d)|)
  }

  /** `myRecords.filter(r => r.status === 'PRESENT').length` for one classmate. */
  function PresentFor(subjectRecords: seq<AttendanceRecord>, sid: string): nat {
    PresentCount(KeyFilter(subjectRecords, RecordStudent, sid))
  }

  function StatFor(subjectRecords: seq<AttendanceRecord>, total: nat): (f: Student -> StudentStat)
    ensures forall s :: f(s) == StudentStat(s, PresentFor(subjectRecords, s.id), total, Percentage(PresentFor(subjectRecords, s.id), total))
  {
    (s: Student) => StudentStat(s, PresentFor(subjectRecords, s.id), total, Percentage(PresentFor(subjectRecords, s.id), total))
  }

  function StatOk(subjectRecords: seq<AttendanceRecord>, total: nat): (p: StudentStat -> bool)
    ensures forall row :: p(row) <==>
      && row.presentCount == PresentFor(subjectRecords, row.student.id)
      && row.totalSessions == total
      && row.percentage == Percentage(row.presentCount, total)
  {
    (row: StudentStat) =>
      && row.presentCount == PresentFor(subjectRecords, row.student.id)
      && row.totalSessions == total
      && row.percentage == Percentage(row.presentCount, total)
  }

  /**
   * `historyStats`: nothing without a subject; otherwise one session per
   * date with records of the subject, latest first, counting every record
   * of that date, and one statistics row per classmate ordered by roll number.
   */
  function HistoryStats(log: seq<AttendanceRecord>, subject: Option<string>, classmates: seq<Student>): (r: CRHistory)
    ensures !Truthy(subject) ==> r.sessions == [] && r.students == []
    ensures Truthy(subject) ==>
      var dates := SessionDates(SubjectRecords(log, subject.value));
      && |r.sessions| == |dates|
      && (forall i :: 0 <= i < |r.sessions| ==> r.sessions[i].date == dates[i])
      && |r.students| == |classmates|
      && multiset(Map(r.students, StatStudent)) == multiset(classmates)
    ensures forall i :: 0 <= i < |r.sessions| ==>
      var onDate := OnDate(SubjectRecords(log, subject.value), r.sessions[i].date);
      r.sessions[i].total == |onDate| && r.sessions[i].present == PresentCount(onDate)
    ensures forall i :: 0 <= i < |r.sessions| ==> r.sessions[i].present <= r.sessions[i].total
    ensures SortedBy(r.students, StatRoll, StrLe)
    ensures forall i :: 0 <= i < |r.students| ==>
      && r.students[i].presentCount == PresentFor(SubjectRecords(log, subject.value), r.students[i].student.id)
      && r.students[i].totalSessions == |r.sessions|
      && r.students[i].percentage == Percentage(r.students[i].presentCount, |r.sessions|)
  {
    if !Truthy(subject) then CRHistory([], [])
    else
      var subjectRecords := SubjectRecords(log, subject.value);
      var sessions := Map(SessionDates(subjectRecords), SessionFor(subjectRecords));
      var rows := Map(classmates, StatFor(subjectRecords, |sessions|));
      var sorted := SortBy(rows, StatRoll, StrLe);
      StatsFacts(subjectRecords, classmates, |sessions|, rows, sorted);
      CRHistory(sessions, sorted)
  }

  lemma StatsFacts(subjectRecords: seq<AttendanceRecord>, classmates: seq<Student>, total: nat,
                   rows: seq<StudentStat>, sorted: seq<StudentStat>)
    requires rows == Map(classmates, StatFor(subjectRecords, total))
    requires sorted == SortBy(rows, StatRoll, StrLe)
    ensures |sorted| == |classmates| && multiset(Map(sorted, StatStudent)) == multiset(classmates)
    ensures SortedBy(sorted, StatRoll, StrLe)
    ensures forall i :: 0 <= i < |sorted| ==>
      && sorted[i].presentCount == PresentFor(subjectRecords, sorted[i].student.id)
      && sorted[i].totalSessions == total
      && sorted[i].percentage == Percentage(sorted[i].presentCount, total)
  {
    assert Map(rows, StatStudent) == classmates;
    MapPermutation(rows, sorted, StatStudent);
    SortByKeepsAll(rows, StatRoll, StrLe, StatOk(subjectRecords, total));
    StrLeTotalPreorder();
    SortBySorted(rows, StatRoll, StrLe);
  }

  /** The records counted over all sessions. */
  function TotalRecorded(sessions: seq<CRSession>): nat {
    if sessions == [] then 0 else sessions[0].total + TotalRecorded(sessions[1..])
  }

  lemma {:induction false} TotalRecordedIsSum(subjectRecords: seq<AttendanceRecord>, dates: seq<string>)
    ensures TotalRecorded(Map(dates, SessionFor(subjectRecords))) == SumCounts(subjectRecords, DateOf, dates)
  {
    if dates != [] {
      TotalRecordedIsSum(subjectRecords, dates[1..]);
      assert Map(dates, SessionFor(subjectRecords))[1..] == Map(dates[1..], SessionFor(subjectRecords));
    }
  }

  /** Each record of the subject is counted in exactly one session: the totals add up to the subject's records. */
  lemma SessionsCountEveryRecord(log: seq<AttendanceRecord>, subject: string, classmates: seq<Student>)
    requires subject != ""
    ensures TotalRecorded(HistoryStats(log, Some(subject), classmates).sessions) == |SubjectRecords(log, subject)|
  {
    var subjectRecords := SubjectRecords(log, subject);
    var dates := SessionDates(subjectRecords);
    SessionDatesDistinct(subjectRecords);
    forall i | 0 <= i < |subjectRecords| ensures DateOf(subjectRecords[i]) in dates {
      assert subjectRecords[i] in subjectRecords;
    }
    CountPartition(subjectRecords, DateOf, dates);
    TotalRecordedIsSum(subjectRecords, dates);
  }

  /** With one record per student and session, every percentage is at most 100. */
  lemma StatsAtMost100(log: seq<AttendanceRecord>, subject: Option<string>, classmates: seq<Student>)
    requires OneRecordPerSlot(log)
    ensures forall row :: row in HistoryStats(log, subject, classmates).students ==>
      row.presentCount <= row.totalSessions && row.percentage <= 100
  {
    var r := HistoryStats(log, subject, classmates);
    forall row | row in r.students ensures row.presentCount <= row.totalSessions && row.percentage <= 100 {
      PresentAtMostSessions(log, subject.value, row.student.id);
    }
  }

  /**
   * The two dashboards list the same session dates for a subject, and the
   * admin's present count, which keeps only current class members, never
   * exceeds the CR's.
   */
  lemma AdminCountsAtMostCR(log: seq<AttendanceRecord>, subject: string, classStudents: seq<Student>, classmates: seq<Student>)
    requires subject != ""
    ensures var admin := AdminReports.HistorySessions(log, subject, classStudents);
      var cr := HistoryStats(log, Some(subject), classmates).sessions;
      && |admin| == |cr|
      && forall i :: 0 <= i < |admin| ==> admin[i].date == cr[i].date && admin[i].present <= cr[i].present
  {
    var admin := AdminReports.HistorySessions(log, subject, classStudents);
    forall i | 0 <= i < |admin|
      ensures admin[i].present <= PresentCount(OnDate(SubjectRecords(log, subject), admin[i].date))
    {
      AdminPresentAtMost(log, subject, classStudents, i);
    }
  }

  /** One session of the administrator's history counts at most the PRESENT records of its date. */
  lemma AdminPresentAtMost(log: seq<AttendanceRecord>, subject: string, classStudents: seq<Student>, i: nat)
    requires subject != "" && i < |AdminReports.HistorySessions(log, subject, classStudents)|
    ensures var session := AdminReports.HistorySessions(log, subject, classStudents)[i];
      session.present <= PresentCount(OnDate(SubjectRecords(log, subject), session.date))
  {
    var subjectRecords := SubjectRecords(log, subject);
    var admin := AdminReports.HistorySessions(log, subject, classStudents);
    assert admin == Map(SessionDates(subjectRecords), AdminReports.SessionFor(subjectRecords, classStudents));
    var onDate := OnDate(subjectRecords, admin[i].date);
    ClassPresentAtMost(onDate, Map(classStudents, AdminReports.StudentIdOf));
  }

  /** Keeping only some students' records never adds PRESENT records. */
  lemma ClassPresentAtMost(records: seq<AttendanceRecord>, ids: seq<string>)
    ensures PresentCount(Filter(records, AdminReports.AmongStudents(ids))) <= PresentCount(records)
  {
    var among := AdminReports.AmongStudents(ids);
    var both := PresentAmong(ids);
    FilterFilter(records, among, IsPresent, both);
    FilterWeaker(records, both, IsPresent);
  }

  function PresentAmong(ids: seq<string>): (p: AttendanceRecord -> bool)
    ensures forall x :: p(x) <==> x.studentId in ids && IsPresent(x)
  {
    (x: AttendanceRecord) => x.studentId in ids && IsPresent(x)
  }

  /**
   * `sessionDetails`: nothing unless both a date and a subject are chosen;
   * otherwise the roster of the classmates for that session.
   */
  function SessionDetails(log: seq<AttendanceRecord>, subject: Option<string>, date: Option<string>, classmates: seq<Student>): (r: Option<seq<RosterRow>>)
    ensures r.None? <==> !Truthy(date) || !Truthy(subject)
    ensures r.Some? ==> r.value == Roster(classmates, AdminReports.SessionRecords(log, subject.value, date.value))
  {
    if !Truthy(date) || !Truthy(subject) then None
    else Some(Roster(classmates, AdminReports.SessionRecords(log, subject.value, date.value)))
  }
}
