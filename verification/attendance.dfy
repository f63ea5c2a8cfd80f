/**
 * The pieces both attendance histories share: the records of one subject,
 * its session dates, present counts, the rounded percentage, and the
 * roster of one session with "N/A" for students without a record.
 */
module Attendance {
  import opened Wrappers
  import opened Seqs
  import opened Strings
  import opened IsoDates
  import opened Types

  // ----- percentages -----

  /**
   * `Math.round(presentCount / totalSessions * 100)`, or 0 without
   * sessions: the whole number nearest to 100 * present / sessions, halves
   * rounded up.
   */
  function Percentage(present: nat, sessions: nat): (r: nat)
    ensures sessions == 0 ==> r == 0
    ensures sessions > 0 ==> 2 * sessions * r - sessions <= 200 * present < 2 * sessions * r + sessions
  {
    if sessions > 0 then
      var q := (200 * present + sessions) / (2 * sessions);
      DivBounds(200 * present + sessions, 2 * sessions);
      q
    else 0
  }

  lemma DivBounds(x: nat, y: nat)
    requires y > 0
    ensures y * (x / y) <= x < y * (x / y) + y
  {
  }

  /** Attending every session gives 100, attending none gives 0, and never more than 100 when present <= sessions. */
  lemma PercentageRange(present: nat, sessions: nat)
    ensures present <= sessions ==> Percentage(present, sessions) <= 100
    ensures sessions > 0 ==> Percentage(sessions, sessions) == 100 && Percentage(0, sessions) == 0
  {
    if sessions > 0 {
      var r := Percentage(present, sessions);
      if present <= sessions && r > 100 {
        MulLess(2 * sessions, 101, r);
        assert false;
      }
      var full := Percentage(sessions, sessions);
      if full < 100 {
        MulLess(2 * sessions, full, 99);
      } else if full > 100 {
        MulLess(2 * sessions, 101, full);
      }
    }
  }

  lemma MulLess(k: nat, a: nat, b: nat)
    requires a <= b
    ensures k * a <= k * b
  {
  }

  // ----- the records of a subject -----

  function RecordCourse(r: AttendanceRecord): string { r.courseId }
  function RecordStudent(r: AttendanceRecord): string { r.studentId }

  predicate IsPresent(r: AttendanceRecord) {
    r.status == Present
  }

  /** `attendance.filter(a => a.courseId === subject)`. */
  function SubjectRecords(log: seq<AttendanceRecord>, subject: string): (r: seq<AttendanceRecord>)
    ensures forall x :: x in r <==> x in log && x.courseId == subject
    ensures Subsequence(r, log)
  {
    FilterSubsequence(log, HasKey(RecordCourse, subject));
    KeyFilter(log, RecordCourse, subject)
  }

  /** How many of `records` say PRESENT. */
  function PresentCount(records: seq<AttendanceRecord>): (n: nat)
    ensures n <= |records|
  {
    |Filter(records, IsPresent)|
  }

  /**
   * `Array.from(new Set(records.map(r => r.date))).sort().reverse()`: each
   * date that occurs once, latest first.
   */
  function SessionDates(records: seq<AttendanceRecord>): (r: seq<string>)
    ensures forall d :: d in r <==> DateOccurs(records, d)
    ensures forall i, j :: 0 <= i < j < |r| ==> StrLt(r[j], r[i])
  {
    var unique := Dedup(Map(records, DateOf));
    var sorted := SortBy(unique, SameString, StrLe);
    var r := Reverse(sorted);
    SessionDatesFacts(records, unique, sorted, r);
    r
  }

  lemma SessionDatesFacts(records: seq<AttendanceRecord>, unique: seq<string>, sorted: seq<string>, r: seq<string>)
    requires unique == Dedup(Map(records, DateOf))
    requires sorted == SortBy(unique, SameString, StrLe)
    requires r == Reverse(sorted)
    ensures forall d :: d in r <==> DateOccurs(records, d)
    ensures forall i, j :: 0 <= i < j < |r| ==> StrLt(r[j], r[i])
  {
    RecordDates(records);
    SortedDates(unique);
    forall d ensures d in r <==> d in sorted {
      assert d in r <==> d in multiset(r);
    }
    ReverseDescending(sorted);
  }

  lemma ReverseDescending(sorted: seq<string>)
    requires forall i, j :: 0 <= i < j < |sorted| ==> StrLt(sorted[i], sorted[j])
    ensures var r := Reverse(sorted);
      forall i, j :: 0 <= i < j < |r| ==> StrLt(r[j], r[i])
  {
    var r := Reverse(sorted);
    forall i, j | 0 <= i < j < |r| ensures StrLt(r[j], r[i]) {
      assert r[j] == sorted[|r| - 1 - j] && r[i] == sorted[|r| - 1 - i];
    }
  }

  /** Some record is dated `d`. */
  ghost predicate DateOccurs(records: seq<AttendanceRecord>, d: string) {
    exists x :: x in records && x.date == d
  }

  lemma RecordDates(records: seq<AttendanceRecord>)
    ensures forall d :: d in Map(records, DateOf) <==> DateOccurs(records, d)
  {
    var dates := Map(records, DateOf);
    forall d | d in dates ensures DateOccurs(records, d) {
      var i :| 0 <= i < |dates| && dates[i] == d;
      assert records[i] in records;
    }
  }

  /** Sorting distinct dates with the string order leaves them strictly ascending. */
  lemma SortedDates(unique: seq<string>)
    requires Distinct(unique)
    ensures var sorted := SortBy(unique, SameString, StrLe);
      && (forall d :: d in sorted <==> d in unique)
      && (forall i, j :: 0 <= i < j < |sorted| ==> StrLt(sorted[i], sorted[j]))
  {
    var sorted := SortBy(unique, SameString, StrLe);
    DistinctPermutation(unique, sorted);
    StrLeTotalPreorder();
    SortBySorted(unique, SameString, StrLe);
    forall i, j | 0 <= i < j < |sorted| ensures StrLt(sorted[i], sorted[j]) {
      assert StrLe(SameString(sorted[i]), SameString(sorted[j]));
    }
    forall d ensures d in sorted <==> d in unique {
      assert d in sorted <==> d in multiset(sorted);
    }
  }

  /** Session dates have no repeats. */
  lemma SessionDatesDistinct(records: seq<AttendanceRecord>)
    ensures Distinct(SessionDates(records))
  {
    var r := SessionDates(records);
    forall i, j | 0 <= i < j < |r| ensures r[i] != r[j] {
      StrLtIrreflexive(r[i]);
    }
  }

  /** When the dates are `YYYY-MM-DD`, the session list runs from the latest day back to the earliest. */
  lemma SessionDatesChronological(records: seq<AttendanceRecord>)
    requires forall x :: x in records ==> IsIsoDate(x.date)
    ensures LatestFirst(SessionDates(records))
  {
    var r := SessionDates(records);
    forall i | 0 <= i < |r| ensures IsIsoDate(r[i]) {
      assert r[i] in r;
      var x :| x in records && x.date == r[i];
    }
    forall i, j | 0 <= i < j < |r| ensures Earlier(r[j], r[i]) {
      StringOrderIsChronological(r[j], r[i]);
    }
  }

  /** ISO dates, each later in the calendar than the ones after it. */
  predicate LatestFirst(dates: seq<string>) {
    && (forall i :: 0 <= i < |dates| ==> IsIsoDate(dates[i]))
    && (forall i, j :: 0 <= i < j < |dates| ==> Earlier(dates[j], dates[i]))
  }

  // ----- one record per student and session -----

  /** Two records are not for the same subject, student and date. */
  function DifferentSlot(a: AttendanceRecord, b: AttendanceRecord): bool {
    !(a.courseId == b.courseId && a.studentId == b.studentId && a.date == b.date)
  }

  /** No student has two records for one subject on one date. */
  ghost predicate OneRecordPerSlot(log: seq<AttendanceRecord>) {
    Pairwise(log, DifferentSlot)
  }

  /**
   * With one record per student and session, a student cannot be present
   * more often than the subject has sessions, so the percentage is at most 100.
   */
  lemma PresentAtMostSessions(log: seq<AttendanceRecord>, subject: string, sid: string)
    requires OneRecordPerSlot(log)
    ensures var subjectRecords := SubjectRecords(log, subject);
      var present := PresentCount(KeyFilter(subjectRecords, RecordStudent, sid));
      var sessions := |SessionDates(subjectRecords)|;
      && present <= sessions
      && Percentage(present, sessions) <= 100
  {
    var subjectRecords := SubjectRecords(log, subject);
    var mine := KeyFilter(subjectRecords, RecordStudent, sid);
    FilterPairwise(log, HasKey(RecordCourse, subject), DifferentSlot);
    FilterPairwise(subjectRecords, HasKey(RecordStudent, sid), DifferentSlot);
    var myDates := Map(mine, DateOf);
    assert Distinct(myDates) by {
      forall i, j | 0 <= i < j < |myDates| ensures myDates[i] != myDates[j] {
        assert mine[i] in mine && mine[j] in mine;
        assert DifferentSlot(mine[i], mine[j]);
      }
    }
    var sessions := SessionDates(subjectRecords);
    SessionDatesDistinct(subjectRecords);
    assert ToSet(myDates) <= ToSet(sessions) by {
      forall d | d in ToSet(myDates) ensures d in ToSet(sessions) {
        var i :| 0 <= i < |myDates| && myDates[i] == d;
        assert mine[i] in subjectRecords;
      }
    }
    DistinctCard(myDates);
    DistinctCard(sessions);
    SubsetCard(ToSet(myDates), ToSet(sessions));
    PercentageRange(PresentCount(mine), |sessions|);
  }

  /** Without that, submitting the same class twice on one day shows 200%. */
  lemma DoubleSubmissionShows200()
    ensures var r1 := AttendanceRecord("att_1_s1", "2024-05-01", "cs101", "s1", Present, "cr");
      var r2 := AttendanceRecord("att_2_s1", "2024-05-01", "cs101", "s1", Present, "cr");
      var subjectRecords := SubjectRecords([r1, r2], "cs101");
      Percentage(PresentCount(KeyFilter(subjectRecords, RecordStudent, "s1")), |SessionDates(subjectRecords)|) == 200
  {
    var r1 := AttendanceRecord("att_1_s1", "2024-05-01", "cs101", "s1", Present, "cr");
    var r2 := AttendanceRecord("att_2_s1", "2024-05-01", "cs101", "s1", Present, "cr");
    var log := [r1, r2];
    var subjectRecords := SubjectRecords(log, "cs101");
    FilterKeepsAll(log, HasKey(RecordCourse, "cs101"));
    FilterKeepsAll(log, HasKey(RecordStudent, "s1"));
    FilterKeepsAll(log, IsPresent);
    var sessions := SessionDates(log);
    SessionDatesDistinct(log);
    assert "2024-05-01" in sessions;
    assert forall d :: d in sessions ==> d == "2024-05-01";
    assert ToSet(sessions) == {"2024-05-01"};
    DistinctCard(sessions);
  }

  // ----- the roster of one session -----

  /** A row's status: the status of a record, or "N/A" when there is none. */
  datatype Mark = Marked(status: Status) | NotAvailable

  datatype RosterRow = RosterRow(student: Student, mark: Mark)

  /** `records.find(r => r.studentId === sid)`: the first record of that student. */
  function RecordFor(records: seq<AttendanceRecord>, sid: string): (r: Option<AttendanceRecord>)
    ensures r.Some? ==> r.value in records && r.value.studentId == sid
    ensures r.None? <==> forall i :: 0 <= i < |records| ==> records[i].studentId != sid
    ensures forall k :: (0 <= k < |records| && records[k].studentId == sid
      && (forall j :: 0 <= j < k ==> records[j].studentId != sid)) ==> r == Some(records[k])
  {
    var r := Find(records, HasKey(RecordStudent, sid));
    forall k | 0 <= k < |records| && records[k].studentId == sid && (forall j :: 0 <= j < k ==> records[j].studentId != sid)
      ensures r == Some(records[k])
    {
      var m :| 0 <= m < |records| && records[m] == r.value && records[m].studentId == sid
        && forall j :: 0 <= j < m ==> records[j].studentId != sid;
      assert m == k;
    }
    r
  }

  /** `record ? record.status : 'N/A'`. */
  function MarkOf(records: seq<AttendanceRecord>, sid: string): (m: Mark)
    ensures m == NotAvailable <==> forall i :: 0 <= i < |records| ==> records[i].studentId != sid
    ensures m.Marked? ==> exists x :: x in records && x.studentId == sid && x.status == m.status
    ensures forall k :: (0 <= k < |records| && records[k].studentId == sid
      && (forall j :: 0 <= j < k ==> records[j].studentId != sid)) ==> m == Marked(records[k].status)
  {
    match RecordFor(records, sid)
    case Some(x) => Marked(x.status)
    case None => NotAvailable
  }

  function RowRoll(row: RosterRow): string { row.student.rollNo }
  function RowStudent(row: RosterRow): Student { row.student }

  function RowOf(records: seq<AttendanceRecord>): (f: Student -> RosterRow)
    ensures forall s :: f(s) == RosterRow(s, MarkOf(records, s.id))
  {
    (s: Student) => RosterRow(s, MarkOf(records, s.id))
  }

  function RowMatches(records: seq<AttendanceRecord>): (p: RosterRow -> bool)
    ensures forall row :: p(row) <==> row.mark == MarkOf(records, row.student.id)
  {
    (row: RosterRow) => row.mark == MarkOf(records, row.student.id)
  }

  /**
   * `students.map(s => ({...s, status})).sort(by roll number)`: one row
   * per student, each with the status of the student's first record in
   * `records` or "N/A", ordered by roll number.
   */
  function Roster(students: seq<Student>, records: seq<AttendanceRecord>): (r: seq<RosterRow>)
    ensures |r| == |students|
    ensures multiset(Map(r, RowStudent)) == multiset(students)
    ensures forall i :: 0 <= i < |r| ==> r[i].mark == MarkOf(records, r[i].student.id)
    ensures SortedBy(r, RowRoll, StrLe)
  {
    var rows := Map(students, RowOf(records));
    var sorted := SortBy(rows, RowRoll, StrLe);
    assert Map(rows, RowStudent) == students;
    MapPermutation(rows, sorted, RowStudent);
    SortByKeepsAll(rows, RowRoll, StrLe, RowMatches(records));
    StrLeTotalPreorder();
    SortBySorted(rows, RowRoll, StrLe);
    sorted
  }

  // ----- per-student statistics -----

  /** A student's row in the statistics table: `{...student, presentCount, totalSessions, percentage}`. */
  datatype StudentStat = StudentStat(student: Student, presentCount: nat, totalSessions: nat, percentage: nat)

  function StatRoll(row: StudentStat): string { row.student.rollNo }
  function StatStudent(row: StudentStat): Student { row.student }

  /** The records with the given date. */
  function OnDate(records: seq<AttendanceRecord>, date: string): (r: seq<AttendanceRecord>)
    ensures forall x :: x in r <==> x in records && x.date == date
    ensures Subsequence(r, records)
  {
    FilterSubsequence(records, HasKey(DateOf, date));
    KeyFilter(records, DateOf, date)
  }
}
