/**
 * The login screen: the fixed administrator credentials, the class
 * representative sign-in, and the password reset wizard (identify, choose a
 * method, verify by emailed code or security answer, set a new password).
 */
module Login {
  import opened Wrappers
  import opened Seqs
  import opened Strings
  import opened Types
  import opened App

  const AdminUser := "admin"
  const AdminPass := "admin"

  /** The password accepted for a representative whose account has none. */
  const DefaultPassword := "12345"

  const AdminError := "Invalid Admin Credentials (try admin/admin)"
  const NotFoundError := "Student not found. Please contact Admin to register."
  const NotCRError := "Access Denied. You are not assigned as a Class Representative."
  const PasswordError := "Invalid Password"
  const ResetNotFoundError := "Student not found with this Roll Number."
  const ResetNotCRError := "Only Class Representatives can reset passwords."
  const NoRecoveryError := "No recovery methods (Email or Security Question) set. Please contact Admin."
  const CodeError := "Invalid Verification Code."
  const NoAnswerError := "Security answer not set on account."
  const AnswerError := "Incorrect answer."
  const ShortPasswordError := "Password must be at least 4 characters."
  const MismatchError := "Passwords do not match."
  const ResetSuccess := "Password reset successfully! Please login."

  predicate AdminCredentialsOk(user: string, pass: string) {
    user == AdminUser && pass == AdminPass
  }

  function RollIs(roll: string): (p: Student -> bool)
    ensures forall s :: p(s) <==> s.rollNo == roll
  {
    (s: Student) => s.rollNo == roll
  }

  /** `students.find(s => s.rollNo === roll)`: the first student with that roll number. */
  function FindByRoll(students: seq<Student>, roll: string): (r: Option<Student>)
    ensures r.None? <==> forall i :: 0 <= i < |students| ==> students[i].rollNo != roll
    ensures r.Some? ==> exists k :: (0 <= k < |students| && students[k] == r.value && r.value.rollNo == roll
      && forall j :: 0 <= j < k ==> students[j].rollNo != roll)
  {
    Find(students, RollIs(roll))
  }

  /** A stored non-empty password must be matched; without one only the default is accepted. */
  predicate PasswordValid(s: Student, given: string) {
    if Truthy(s.password) then s.password.value == given else given == DefaultPassword
  }

  datatype SignIn = SignedIn(student: Student) | Refused(message: string)

  /** `handleCRLogin`: find the roll number, check the CR flag, then the password. */
  function CRSignIn(students: seq<Student>, roll: string, password: string): (r: SignIn)
    ensures r.SignedIn? <==> (FindByRoll(students, roll).Some? && FindByRoll(students, roll).value.isCR
      && PasswordValid(FindByRoll(students, roll).value, password))
    ensures r.SignedIn? ==> r.student in students && r.student.rollNo == roll && r.student.isCR
    ensures r == Refused(NotFoundError) <==> forall i :: 0 <= i < |students| ==> students[i].rollNo != roll
    ensures r == Refused(NotCRError) <==> FindByRoll(students, roll).Some? && !FindByRoll(students, roll).value.isCR
    ensures r == Refused(PasswordError) <==> (FindByRoll(students, roll).Some? && FindByRoll(students, roll).value.isCR
      && !PasswordValid(FindByRoll(students, roll).value, password))
  {
    match FindByRoll(students, roll)
    case None => Refused(NotFoundError)
    case Some(s) =>
      if !s.isCR then Refused(NotCRError)
      else if PasswordValid(s, password) then SignedIn(s)
      else Refused(PasswordError)
  }

  /** A student who is not a class representative never signs in, whatever the password. */
  lemma OnlyRepresentativesSignIn(students: seq<Student>, roll: string, password: string)
    requires forall i :: 0 <= i < |students| ==> (students[i].rollNo == roll ==> !students[i].isCR)
    ensures CRSignIn(students, roll, password).Refused?
  {
  }

  /**
   * After a representative's password is reset to a non-empty one, signing
   * in with the same roll number and the new password succeeds.
   */
  lemma ResetThenSignIn(students: seq<Student>, s: Student, newPass: string)
    requires FindByRoll(students, s.rollNo) == Some(s) && s.isCR && newPass != ""
    ensures CRSignIn(WithPassword(students, s.id, newPass), s.rollNo, newPass) == SignedIn(s.(password := Some(newPass)))
  {
    var after := WithPassword(students, s.id, newPass);
    var k :| 0 <= k < |students| && students[k] == s && forall j :: 0 <= j < k ==> students[j].rollNo != s.rollNo;
    assert after[k] == s.(password := Some(newPass));
    forall j | 0 <= j < k ensures after[j].rollNo != s.rollNo {
      assert after[j].rollNo == students[j].rollNo;
    }
    FindByRollFirst(after, s.rollNo, k);
    assert PasswordValid(after[k], newPass);
  }

  /** The student found is the first one with the roll number. */
  lemma FindByRollFirst(students: seq<Student>, roll: string, k: nat)
    requires k < |students| && students[k].rollNo == roll
    requires forall j :: 0 <= j < k ==> students[j].rollNo != roll
    ensures FindByRoll(students, roll) == Some(students[k])
  {
    var r := FindByRoll(students, roll);
    assert r.Some? by {
      assert students[k].rollNo == roll;
    }
    var m :| 0 <= m < |students| && students[m] == r.value && r.value.rollNo == roll
      && forall j :: 0 <= j < m ==> students[j].rollNo != roll;
    assert students[m].rollNo == roll && students[k].rollNo == roll;
    assert !(m < k) && !(k < m);
  }

  /** The outcome of the first reset step. */
  datatype Identification = Identified(student: Student) | NotIdentified(message: string)

  /**
   * `handleIdentify`: the student with that roll number must be a class
   * representative with an email or a security question.
   */
  function Identify(students: seq<Student>, roll: string): (r: Identification)
    ensures r.Identified? <==> (FindByRoll(students, roll).Some? && FindByRoll(students, roll).value.isCR
      && (Truthy(FindByRoll(students, roll).value.email) || Truthy(FindByRoll(students, roll).value.securityQuestion)))
    ensures r.Identified? ==> Some(r.student) == FindByRoll(students, roll)
    ensures r.Identified? ==> r.student in students && r.student.rollNo == roll
    ensures r == NotIdentified(ResetNotFoundError) <==> FindByRoll(students, roll).None?
    ensures r == NotIdentified(ResetNotCRError) <==> FindByRoll(students, roll).Some? && !FindByRoll(students, roll).value.isCR
    ensures r == NotIdentified(NoRecoveryError) <==> (FindByRoll(students, roll).Some? && FindByRoll(students, roll).value.isCR
      && !Truthy(FindByRoll(students, roll).value.email) && !Truthy(FindByRoll(students, roll).value.securityQuestion))
  {
    match FindByRoll(students, roll)
    case None => NotIdentified(ResetNotFoundError)
    case Some(s) =>
      if !s.isCR then NotIdentified(ResetNotCRError)
      else if !Truthy(s.email) && !Truthy(s.securityQuestion) then NotIdentified(NoRecoveryError)
      else Identified(s)
  }

  /** `answer.trim().toLowerCase() === stored.trim().toLowerCase()`. */
  predicate AnswerMatches(answer: string, stored: string) {
    ToLower(Trim(answer)) == ToLower(Trim(stored))
  }

  /** The answer check ignores letter case. */
  lemma AnswerIgnoresCase(answer: string, stored: string)
    requires ToLower(answer) == ToLower(stored)
    ensures AnswerMatches(answer, stored)
  {
    TrimToLower(answer);
    TrimToLower(stored);
  }

  /** The answer check ignores white space around the answer. */
  lemma AnswerIgnoresPadding(pad: string, stored: string)
    requires AllSpace(pad)
    ensures AnswerMatches(pad + stored + pad, stored)
  {
    TrimPadding(pad, stored);
  }

  // ----- email masking -----

  function Stars(n: nat): (r: string)
    ensures |r| == n && forall i :: 0 <= i < n ==> r[i] == '*'
  {
    seq(n, i => '*')
  }

  /** The local part with all but its first two characters replaced by `*`. */
  function MaskName(name: string): (r: string)
    ensures |r| == |name|
    ensures forall i :: 0 <= i < |name| ==> r[i] == if i < 2 then name[i] else '*'
  {
    if |name| > 2 then name[..2] + Stars(|name| - 2) else name
  }

  /**
   * `maskEmail`: split at `@`, keep the first two pieces, and mask the first;
   * an address whose first or second piece is missing or empty is shown as is.
   */
  function MaskEmail(email: string): (r: string)
    ensures '@' !in email ==> r == email
    ensures '@' in email ==> '@' in r
  {
    var parts := Split(email, '@');
    var name := parts[0];
    if name == "" || |parts| < 2 || parts[1] == "" then email
    else MaskName(name) + "@" + parts[1]
  }

  /** An address whose local part or domain is empty is shown unchanged. */
  lemma MaskEmailEmptyPart(name: string, domain: string)
    requires '@' !in name && '@' !in domain
    requires name == "" || domain == ""
    ensures MaskEmail(name + "@" + domain) == name + "@" + domain
  {
    SplitAtFirst(name, '@', domain);
  }

  /**
   * An address `name@domain` with a single `@` keeps its length and domain,
   * its first two characters and its `@`; every other character of the name
   * becomes `*`.
   */
  lemma MaskEmailShape(name: string, domain: string)
    requires name != "" && domain != "" && '@' !in name && '@' !in domain
    ensures var r := MaskEmail(name + "@" + domain);
      && |r| == |name| + 1 + |domain|
      && r == MaskName(name) + "@" + domain
  {
    SplitAtFirst(name, '@', domain);
  }

  /** Only the first two pieces are kept: text after a second `@` is dropped. */
  lemma MaskEmailDropsAfterSecondAt()
    ensures MaskEmail("ab@c@d") == "ab@c"
  {
    assert Split("d", '@') == ["d"];
    assert "c" + ['@'] + "d" == "c@d";
    SplitAtFirst("c", '@', "d");
    assert Split("c@d", '@') == ["c", "d"];
    assert "ab" + ['@'] + "c@d" == "ab@c@d";
    SplitAtFirst("ab", '@', "c@d");
    assert Split("ab@c@d", '@') == ["ab", "c", "d"];
    assert MaskName("ab") == "ab";
  }

  /** Masking a masked address changes nothing. */
  lemma MaskEmailIdempotent(email: string)
    ensures MaskEmail(MaskEmail(email)) == MaskEmail(email)
  {
    var parts := Split(email, '@');
    var name := parts[0];
    if !(name == "" || |parts| < 2 || parts[1] == "") {
      var masked := MaskName(name);
      assert '@' !in masked by {
        forall i | 0 <= i < |masked| ensures masked[i] != '@' {
          if i < 2 {
            assert masked[i] == name[i];
          }
        }
      }
      assert '@' !in parts[1];
      MaskEmailShape(masked, parts[1]);
      assert MaskName(masked) == masked;
    }
  }

  // ----- the screen -----

  datatype Tab = AdminTab | CRTab

  datatype ResetStep = IdentifyStep | MethodStep | VerifyEmailStep | VerifyQAStep | NewPasswordStep

  datatype RecoveryMethod = ByEmail | ByQuestion

  /** A four-digit code, as `Math.floor(1000 + Math.random() * 9000).toString()` gives. */
  predicate FourDigitCode(code: string) {
    |code| == 4 && AllDigits(code) && code[0] != '0'
  }

  /** The rendered four-digit code of a number from 1000 to 9999. */
  lemma CodeHasFourDigits(n: nat)
    requires 1000 <= n <= 9999
    ensures FourDigitCode(NatToString(n))
  {
    assert Pow10(3) == 1000 && Pow10(4) == 10000;
    NatToStringLength(n, 4);
    NatToStringRoundTrip(n);
    DigitsValueBound(NatToString(n)[1..]);
  }

  /**
   * The login screen's state: the tab, the two sign-in forms, the messages
   * and the reset wizard, one field per `useState` of the screen.
   */
  datatype LoginState = LoginState(
    activeTab: Tab,
    adminUser: string,
    adminPass: string,
    crRollNo: string,
    crPassword: string,
    error: string,
    successMsg: string,
    isResetting: bool,
    resetStep: ResetStep,
    resetRollNo: string,
    foundStudent: Option<Student>,
    resetCode: string,
    serverCode: string,
    qaAnswer: string,
    newPassword: string,
    confirmPassword: string)

  /** The initial screen: the admin tab with the demo credentials filled in. */
  const InitialLoginState := LoginState(AdminTab, AdminUser, AdminPass, "", "", "", "", false, IdentifyStep,
    "", None, "", "", "", "", "")

  /**
   * Past the first reset step there is an identified representative with a
   * way to recover; the code step has a four-digit code and an email, the
   * question step a security question.
   */
  predicate WizardValid(st: LoginState) {
    && (st.resetStep != IdentifyStep ==>
          st.foundStudent.Some? && st.foundStudent.value.isCR
          && (Truthy(st.foundStudent.value.email) || Truthy(st.foundStudent.value.securityQuestion)))
    && (st.resetStep == VerifyEmailStep ==> FourDigitCode(st.serverCode) && Truthy(st.foundStudent.value.email))
    && (st.resetStep == VerifyQAStep ==> Truthy(st.foundStudent.value.securityQuestion))
  }

  /**
   * The login screen; `store` is the shell it reports to. Every handler
   * states its new state as the old one with the fields it sets replaced,
   * so every other field is kept.
   */
  class LoginPanel {
    const store: Store
    var state: LoginState

    predicate Valid()
      reads this
    {
      WizardValid(state)
    }

    constructor (store: Store)
      ensures this.store == store && Valid()
      ensures state == InitialLoginState
    {
      this.store := store;
      state := InitialLoginState;
    }

    /** `handleAdminLogin` with the typed credentials. */
    method AdminLogin(user: string, pass: string)
      requires !state.isResetting && state.activeTab == AdminTab
      modifies this, store
      ensures AdminCredentialsOk(user, pass) ==>
        state == old(state).(adminUser := user, adminPass := pass) && store.View() == AdminScreen
      ensures !AdminCredentialsOk(user, pass) ==>
        state == old(state).(adminUser := user, adminPass := pass, error := AdminError) && unchanged(store)
      ensures store.students == old(store.students) && store.courses == old(store.courses)
      ensures store.assignments == old(store.assignments) && store.attendance == old(store.attendance)
    {
      state := state.(adminUser := user, adminPass := pass);
      if AdminCredentialsOk(user, pass) {
        store.Login(Admin, None);
      } else {
        state := state.(error := AdminError);
      }
    }

    /** `handleCRLogin` with the typed roll number and password. */
    method CRLogin(roll: string, password: string)
      requires !state.isResetting && state.activeTab == CRTab
      modifies this, store
      ensures var r := CRSignIn(old(store.students), roll, password);
        && (r.SignedIn? ==>
              state == old(state).(crRollNo := roll, crPassword := password) && store.View() == CRScreen(r.student))
        && (r.Refused? ==>
              state == old(state).(crRollNo := roll, crPassword := password, error := r.message) && unchanged(store))
      ensures store.students == old(store.students) && store.courses == old(store.courses)
      ensures store.assignments == old(store.assignments) && store.attendance == old(store.attendance)
    {
      state := state.(crRollNo := roll, crPassword := password);
      var r := CRSignIn(store.students, roll, password);
      if r.SignedIn? {
        store.Login(CR, Some(r.student));
      } else {
        state := state.(error := r.message);
      }
    }

    /** `startReset`: the "Forgot password?" link under the CR form. */
    method StartReset()
      requires !state.isResetting && state.activeTab == CRTab
      modifies this
      ensures Valid()
      ensures state == old(state).(isResetting := true, resetStep := IdentifyStep, error := "",
        successMsg := "", resetRollNo := "", foundStudent := None)
    {
      state := state.(isResetting := true, resetStep := IdentifyStep, error := "", successMsg := "",
        resetRollNo := "", foundStudent := None);
    }

    /** `cancelReset`: back to the sign-in forms; the wizard's own state stays. */
    method CancelReset()
      requires Valid() && state.isResetting
      modifies this
      ensures Valid() && state == old(state).(isResetting := false, error := "", successMsg := "")
    {
      state := state.(isResetting := false, error := "", successMsg := "");
    }

    /** The two tab buttons; switching clears the messages. */
    method SelectTab(tab: Tab)
      requires Valid() && !state.isResetting
      modifies this
      ensures Valid() && state == old(state).(activeTab := tab, error := "", successMsg := "")
    {
      state := state.(activeTab := tab, error := "", successMsg := "");
    }

    /** `handleIdentify` with the typed roll number. */
    method IdentifyStudent(roll: string)
      requires Valid() && state.isResetting && state.resetStep == IdentifyStep
      modifies this
      ensures Valid()
      ensures var r := Identify(store.students, roll);
        && (r.Identified? ==>
              state == old(state).(resetRollNo := roll, foundStudent := Some(r.student), resetStep := MethodStep, error := ""))
        && (r.NotIdentified? ==> state == old(state).(resetRollNo := roll, error := r.message))
    {
      state := state.(resetRollNo := roll);
      var r := Identify(store.students, roll);
      if r.Identified? {
        state := state.(foundStudent := Some(r.student), resetStep := MethodStep, error := "");
      } else {
        state := state.(error := r.message);
      }
    }

    /**
     * `handleMethodSelect`; `code` is the random number drawn for the
     * simulated email. A method the account lacks only clears the error.
     */
    method SelectMethod(choice: RecoveryMethod, code: nat)
      requires Valid() && state.isResetting && state.resetStep == MethodStep
      requires 1000 <= code <= 9999
      modifies this
      ensures Valid()
      ensures var found := old(state).foundStudent.value;
        && (choice == ByEmail && Truthy(found.email) ==>
              state == old(state).(error := "", serverCode := NatToString(code), resetCode := "", resetStep := VerifyEmailStep))
        && (choice == ByQuestion && Truthy(found.securityQuestion) ==>
              state == old(state).(error := "", qaAnswer := "", resetStep := VerifyQAStep))
        && (choice == ByEmail && !Truthy(found.email) ==> state == old(state).(error := ""))
        && (choice == ByQuestion && !Truthy(found.securityQuestion) ==> state == old(state).(error := ""))
    {
      state := state.(error := "");
      if choice == ByEmail {
        if !Truthy(state.foundStudent.value.email) {
          return;
        }
        CodeHasFourDigits(code);
        state := state.(serverCode := NatToString(code), resetCode := "", resetStep := VerifyEmailStep);
      } else {
        if !Truthy(state.foundStudent.value.securityQuestion) {
          return;
        }
        state := state.(qaAnswer := "", resetStep := VerifyQAStep);
      }
    }

    /** `handleVerifyEmail` with the typed code: only the code sent lets the user on. */
    method VerifyEmail(code: string)
      requires Valid() && state.isResetting && state.resetStep == VerifyEmailStep
      modifies this
      ensures Valid()
      ensures code == old(state).serverCode ==>
        state == old(state).(resetCode := code, resetStep := NewPasswordStep, error := "")
      ensures code != old(state).serverCode ==> state == old(state).(resetCode := code, error := CodeError)
    {
      state := state.(resetCode := code);
      if code != state.serverCode {
        state := state.(error := CodeError);
        return;
      }
      state := state.(resetStep := NewPasswordStep, error := "");
    }

    /** `handleVerifyQA` with the typed answer, compared without case or surrounding spaces. */
    method VerifyQA(answer: string)
      requires Valid() && state.isResetting && state.resetStep == VerifyQAStep
      modifies this
      ensures Valid()
      ensures var stored := old(state).foundStudent.value.securityAnswer;
        && (!Truthy(stored) ==> state == old(state).(qaAnswer := answer, error := NoAnswerError))
        && (Truthy(stored) && !AnswerMatches(answer, stored.value) ==>
              state == old(state).(qaAnswer := answer, error := AnswerError))
        && (Truthy(stored) && AnswerMatches(answer, stored.value) ==>
              state == old(state).(qaAnswer := answer, resetStep := NewPasswordStep, error := ""))
    {
      state := state.(qaAnswer := answer);
      var stored := state.foundStudent.value.securityAnswer;
      if !Truthy(stored) {
        state := state.(error := NoAnswerError);
        return;
      }
      if !AnswerMatches(answer, stored.value) {
        state := state.(error := AnswerError);
        return;
      }
      state := state.(resetStep := NewPasswordStep, error := "");
    }

    /**
     * `handleResetPassword` with the two typed passwords: a new password of
     * at least four characters, typed twice, replaces the identified
     * student's; the CR form is then pre-filled with that roll number.
     */
    method ResetPassword(password: string, confirmation: string)
      requires Valid() && state.isResetting && state.resetStep == NewPasswordStep
      modifies this, store
      ensures Valid()
      ensures |password| < 4 ==>
        && unchanged(store)
        && state == old(state).(newPassword := password, confirmPassword := confirmation, error := ShortPasswordError)
      ensures |password| >= 4 && password != confirmation ==>
        && unchanged(store)
        && state == old(state).(newPassword := password, confirmPassword := confirmation, error := MismatchError)
      ensures |password| >= 4 && password == confirmation ==>
        var found := old(state).foundStudent.value;
        && store.students == WithPassword(old(store.students), found.id, password)
        && state == old(state).(newPassword := password, confirmPassword := confirmation, isResetting := false,
             error := "", successMsg := ResetSuccess, crRollNo := found.rollNo, crPassword := "", activeTab := CRTab)
      ensures store.courses == old(store.courses) && store.assignments == old(store.assignments)
      ensures store.attendance == old(store.attendance) && store.role == old(store.role)
      ensures store.currentUser == old(store.currentUser)
    {
      state := state.(newPassword := password, confirmPassword := confirmation);
      if |password| < 4 {
        state := state.(error := ShortPasswordError);
        return;
      }
      if password != confirmation {
        state := state.(error := MismatchError);
        return;
      }
      var s := state.foundStudent.value;
      store.ResetPassword(s.id, password);
      state := state.(isResetting := false, error := "", successMsg := ResetSuccess, crRollNo := s.rollNo,
        crPassword := "", activeTab := CRTab);
    }

    /** The Back button of the method step. */
    method BackToIdentify()
      requires Valid() && state.isResetting && state.resetStep == MethodStep
      modifies this
      ensures Valid() && state == old(state).(resetStep := IdentifyStep)
    {
      state := state.(resetStep := IdentifyStep);
    }

    /** The Back buttons of the two verification steps. */
    method BackToMethod()
      requires Valid() && state.isResetting && (state.resetStep == VerifyEmailStep || state.resetStep == VerifyQAStep)
      modifies this
      ensures Valid() && state == old(state).(resetStep := MethodStep)
    {
      state := state.(resetStep := MethodStep);
    }
  }

  /**
   * The reset wizard walked to the end and then the CR sign-in: a
   * representative who identifies, proves who they are by the emailed code
   * or by the security answer, and sets a new password, signs in with it.
   */
  method ResetThenSignInFlow(panel: LoginPanel, s: Student, choice: RecoveryMethod, code: nat, answer: string,
                             newPass: string)
    requires panel.Valid() && !panel.state.isResetting && panel.state.activeTab == CRTab
    requires FindByRoll(panel.store.students, s.rollNo) == Some(s) && s.isCR
    requires 1000 <= code <= 9999 && |newPass| >= 4
    requires choice == ByEmail ==> Truthy(s.email)
    requires choice == ByQuestion ==>
      Truthy(s.securityQuestion) && Truthy(s.securityAnswer) && AnswerMatches(answer, s.securityAnswer.value)
    modifies panel, panel.store
    ensures panel.store.View() == CRScreen(s.(password := Some(newPass)))
    ensures panel.state.crRollNo == s.rollNo && !panel.state.isResetting
  {
    var before := panel.store.students;
    panel.StartReset();
    panel.IdentifyStudent(s.rollNo);
    panel.SelectMethod(choice, code);
    if choice == ByEmail {
      panel.VerifyEmail(NatToString(code));
    } else {
      panel.VerifyQA(answer);
    }
    panel.ResetPassword(newPass, newPass);
    ResetThenSignIn(before, s, newPass);
    panel.CRLogin(s.rollNo, newPass);
  }
}
