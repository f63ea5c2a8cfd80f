/**
 * The records the attendance app keeps (students, the subject library,
 * subject-to-class assignments and attendance records), the role of the
 * signed-in user, and the fixed option lists and initial data.
 */
module Types {
  import opened Wrappers
  import opened Seqs
  import opened Strings

  /**
   * A JavaScript number as the app produces it: an integer, or NaN when a
   * number input is cleared and `parseInt` finds no digits.
   */
  datatype Num = NaN | Int(value: int)

  /** `a === b` on numbers: NaN equals nothing, itself included. */
  predicate SameNum(a: Num, b: Num) {
    a.Int? && b.Int? && a.value == b.value
  }

  /** `String(n)`, as a template literal renders it. */
  function NumToString(n: Num): string {
    match n
    case NaN => "NaN"
    case Int(i) => IntToString(i)
  }

  /** The longest run of decimal digits at the front of `s`. */
  function DigitPrefix(s: string): (r: string)
    ensures |r| <= |s| && r == s[..|r|] && AllDigits(r)
    ensures |r| == |s| || !IsDigit(s[|r|])
  {
    if s == [] || !IsDigit(s[0]) then []
    else
      var rest := DigitPrefix(s[1..]);
      assert s[1..][..|rest|] == s[1..|rest| + 1];
      [s[0]] + rest
  }

  /**
   * `parseInt(s)`: skip leading white space, read an optional sign and then
   * as many decimal digits as there are; no digits gives NaN.
   */
  function ParseInt(s: string): (r: Num)
    ensures |s| == 0 ==> r == NaN
    ensures s != "" && AllDigits(s) ==> r == Int(DigitsValue(s))
  {
    DigitPrefixOfDigits(s);
    var t := TrimStart(s);
    var signed := |t| > 0 && (t[0] == '-' || t[0] == '+');
    var body := if signed then t[1..] else t;
    var digits := DigitPrefix(body);
    if digits == [] then NaN
    else if signed && t[0] == '-' then Int(-(DigitsValue(digits) as int))
    else Int(DigitsValue(digits))
  }

  lemma {:induction false} DigitPrefixOfDigits(s: string)
    ensures AllDigits(s) ==> DigitPrefix(s) == s
  {
    if s != [] && AllDigits(s) {
      DigitPrefixOfDigits(s[1..]);
      assert s == [s[0]] + s[1..];
    }
  }

  /** Reading back a rendered integer gives the integer. */
  lemma ParseIntRoundTrip(i: int)
    ensures ParseInt(IntToString(i)) == Int(i)
  {
    var n: nat := if i < 0 then -i else i;
    var digits := NatToString(n);
    NatToStringRoundTrip(n);
    DigitPrefixOfDigits(digits);
    var s := IntToString(i);
    if i < 0 {
      assert s == "-" + digits;
      assert TrimStart(s) == s;
      assert s[1..] == digits;
    } else {
      assert s == digits;
      assert !IsSpace(s[0]);
      assert TrimStart(s) == s;
    }
  }

  datatype Student = Student(
    id: string,
    name: string,
    rollNo: string,
    degree: string,
    department: string,
    year: Num,
    semester: Num,
    isCR: bool,
    email: Option<string>,
    password: Option<string>,
    securityQuestion: Option<string>,
    securityAnswer: Option<string>)

  datatype Course = Course(id: string, name: string, code: string)

  /** A subject of the library taught to one class (degree, department, year, semester). */
  datatype CourseAssignment = CourseAssignment(
    id: string,
    courseId: string,
    degree: string,
    department: string,
    year: Num,
    semester: Num)

  /** A record's status is one of exactly two values. */
  datatype Status = Present | Absent

  /** One student's attendance at one session; `date` is `YYYY-MM-DD`, `markedBy` the CR's id. */
  datatype AttendanceRecord = AttendanceRecord(
    id: string,
    date: string,
    courseId: string,
    studentId: string,
    status: Status,
    markedBy: string)

  /** Who is signed in: the administrator, a class representative, or nobody. */
  datatype UserRole = Admin | CR | NoRole

  /** An optional string used as a condition: present and non-empty. */
  predicate Truthy(o: Option<string>) {
    o.Some? && o.value != ""
  }

  function CourseIdOf(c: Course): string { c.id }
  function AssignmentIdOf(a: CourseAssignment): string { a.id }
  function DateOf(r: AttendanceRecord): string { r.date }

  const Degrees: seq<string> := [
    "B.Tech", "B.E.", "B.Sc", "B.A.", "B.Com", "BBA", "BCA",
    "M.Tech", "M.Sc", "M.A.", "MBA", "MCA", "PhD"]

  const Departments: seq<string> := [
    "Computer Science", "Information Technology", "Electronics & Comm.",
    "Electrical Engineering", "Mechanical Engineering", "Civil Engineering",
    "Business Administration", "Commerce", "Economics", "Psychology",
    "English", "Mathematics", "Physics", "Chemistry", "Biology",
    "Biotechnology", "Law", "History", "Political Science", "Sociology",
    "Journalism", "Architecture"]

  const SecurityQuestions: seq<string> := [
    "What is your mother's maiden name?",
    "What was the name of your first pet?",
    "What is the name of the city you were born in?",
    "What is your favorite food?",
    "What is the name of your first school?",
    "What is your favorite movie?",
    "What is your father's middle name?"]

  const InitialStudents: seq<Student> := []

  const InitialCourses: seq<Course> := [
    Course("cs101", "Introduction to Programming", "CS101"),
    Course("cs102", "Data Structures & Algorithms", "CS201")]

  const InitialAssignments: seq<CourseAssignment> := []

  /**
   * The app starts with no students and no assignments, and with two library
   * subjects whose ids and codes differ; the option lists have no repeats.
   */
  lemma InitialData()
    ensures InitialStudents == [] && InitialAssignments == []
    ensures |InitialCourses| == 2
    ensures Distinct(Map(InitialCourses, CourseIdOf))
    ensures InitialCourses[0].code != InitialCourses[1].code
    ensures |Degrees| == 13 && Distinct(Degrees)
    ensures |Departments| == 22 && |SecurityQuestions| == 7
  {
    assert Map(InitialCourses, CourseIdOf) == ["cs101", "cs102"];
  }
}
