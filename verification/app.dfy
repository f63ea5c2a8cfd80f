/**
 * The application shell: the four shared lists, who is signed in, which
 * screen is shown, and the password reset the login screen asks for.
 */
module App {
  import opened Wrappers
  import opened Seqs
  import opened Types

  /** The screen the shell renders. */
  datatype Screen = AdminScreen | CRScreen(user: Student) | LoginScreen

  /** One student after `handlePasswordReset(studentId, newPass)`. */
  function PasswordReset(s: Student, studentId: string, newPass: string): Student {
    if s.id == studentId then s.(password := Some(newPass)) else s
  }

  /** `students.map(s => s.id === studentId ? { ...s, password: newPass } : s)`. */
  function WithPassword(students: seq<Student>, studentId: string, newPass: string): (r: seq<Student>)
    ensures |r| == |students|
    ensures forall i :: 0 <= i < |students| ==> r[i] == PasswordReset(students[i], studentId, newPass)
  {
    seq(|students|, i requires 0 <= i < |students| => PasswordReset(students[i], studentId, newPass))
  }

  /**
   * A reset touches nothing but passwords: every student keeps its place and
   * every other field, the students with that id get the new password and
   * everyone else keeps theirs.
   */
  lemma ResetChangesOnlyThatPassword(students: seq<Student>, studentId: string, newPass: string)
    ensures var r := WithPassword(students, studentId, newPass);
      forall i :: 0 <= i < |students| ==>
        && r[i].(password := students[i].password) == students[i]
        && (r[i].password == if students[i].id == studentId then Some(newPass) else students[i].password)
  {
  }

  /** The last of two resets of one account wins. */
  lemma ResetTwice(students: seq<Student>, studentId: string, first: string, second: string)
    ensures WithPassword(WithPassword(students, studentId, first), studentId, second) == WithPassword(students, studentId, second)
  {
    var mid := WithPassword(students, studentId, first);
    var a := WithPassword(mid, studentId, second);
    var b := WithPassword(students, studentId, second);
    forall i | 0 <= i < |a| ensures a[i] == b[i] {
      assert a[i] == PasswordReset(mid[i], studentId, second);
    }
  }

  /** The state `App` holds and passes down to the three screens. */
  class Store {
    var students: seq<Student>
    var courses: seq<Course>
    var assignments: seq<CourseAssignment>
    var attendance: seq<AttendanceRecord>
    var role: UserRole
    var currentUser: Option<Student>

    /** Start-up: the initial lists, no attendance, nobody signed in. */
    constructor ()
      ensures students == InitialStudents && courses == InitialCourses && assignments == InitialAssignments
      ensures attendance == [] && role == NoRole && currentUser == None
      ensures View() == LoginScreen
    {
      students := InitialStudents;
      courses := InitialCourses;
      assignments := InitialAssignments;
      attendance := [];
      role := NoRole;
      currentUser := None;
    }

    /**
     * The rendering rule: the admin dashboard for the admin role, the CR
     * dashboard for the CR role with a user, the login screen otherwise.
     */
    function View(): (s: Screen)
      reads this
      ensures s.AdminScreen? <==> role == Admin
      ensures s.CRScreen? <==> role == CR && currentUser.Some?
      ensures s.CRScreen? ==> s.user == currentUser.value
    {
      if role == Admin then AdminScreen
      else if role == CR && currentUser.Some? then CRScreen(currentUser.value)
      else LoginScreen
    }

    /** `handleLogin`: set the role; replace the user only when one is given. */
    method Login(newRole: UserRole, user: Option<Student>)
      modifies this
      ensures role == newRole
      ensures currentUser == (if user.Some? then user else old(currentUser))
      ensures students == old(students) && courses == old(courses)
      ensures assignments == old(assignments) && attendance == old(attendance)
      ensures newRole == Admin ==> View() == AdminScreen
      ensures newRole == CR && user.Some? ==> View() == CRScreen(user.value)
    {
      role := newRole;
      if user.Some? {
        currentUser := user;
      }
    }

    /** `handleLogout`: nobody is signed in and the login screen shows; the data stays. */
    method Logout()
      modifies this
      ensures role == NoRole && currentUser == None
      ensures students == old(students) && courses == old(courses)
      ensures assignments == old(assignments) && attendance == old(attendance)
      ensures View() == LoginScreen
    {
      role := NoRole;
      currentUser := None;
    }

    /** `handlePasswordReset`: only the students' passwords can change. */
    method ResetPassword(studentId: string, newPass: string)
      modifies this
      ensures students == WithPassword(old(students), studentId, newPass)
      ensures courses == old(courses) && assignments == old(assignments) && attendance == old(attendance)
      ensures role == old(role) && currentUser == old(currentUser)
    {
      students := WithPassword(students, studentId, newPass);
    }
  }
}
