/** The registration and login form schemas. Every field check runs and
    reports its own issue; the registration form's password-match check on
    top of the object runs as well, so one submission can list several
    issues. The form submits only when there are none. Whether the email is
    well formed is an input here. */
module AuthForms {
  import opened Wrappers
  import opened PasswordPolicy

  /** A schema issue: the field it is shown under and its message. */
  datatype Issue = Issue(path: string, message: string)

  const UsernameShort := Issue("username", "Name must be at least 2 characters")
  const EmailInvalid := Issue("email", "Invalid email address")
  const PasswordShort := Issue("password", "Password must be at least 8 characters")
  const PasswordWeak := Issue("password", "Must contain uppercase, lowercase, and numbers")
  const PasswordsDiffer := Issue("confirmPassword", "Passwords do not match")

  /** The `password` field rule shared by both forms: `.min(8)` then
      `.regex(passwordRegex)`. */
  function PasswordIssues(pw: string): (r: seq<Issue>)
    ensures |pw| < 8 <==> PasswordShort in r
    ensures !PasswordRegex(pw) <==> PasswordWeak in r
    ensures r == [] <==> PasswordRegex(pw)
    ensures forall i :: 0 <= i < |r| ==> r[i].path == "password"
  {
    (if |pw| < 8 then [PasswordShort] else []) + (if !PasswordRegex(pw) then [PasswordWeak] else [])
  }

  datatype Registration = Registration(username: string, email: string, password: string, confirmPassword: string)

  /** The registration schema: username, email and password checks, then
      the refinement that the confirmation equals the password. */
  function RegistrationIssues(v: Registration, emailValid: bool): (r: seq<Issue>)
    ensures |v.username| < 2 <==> UsernameShort in r
    ensures !emailValid <==> EmailInvalid in r
    ensures |v.password| < 8 ==> PasswordShort in r
    ensures v.password != v.confirmPassword <==> PasswordsDiffer in r
    ensures r == [] <==>
      |v.username| >= 2 && emailValid && PasswordRegex(v.password) && v.password == v.confirmPassword
  {
    (if |v.username| < 2 then [UsernameShort] else [])
      + (if !emailValid then [EmailInvalid] else [])
      + PasswordIssues(v.password)
      + (if v.password != v.confirmPassword then [PasswordsDiffer] else [])
  }

  /** An accepted registration has a password with a lowercase letter, an
      uppercase letter, a digit and eight or more characters, none of them a
      line terminator. */
  lemma AcceptedRegistrationPassword(v: Registration, emailValid: bool)
    requires RegistrationIssues(v, emailValid) == []
    ensures NoLineTerminator(v.password) && IndicatorsMet(v.password)
    ensures v.confirmPassword == v.password
  {
    PasswordRegexMeaning(v.password);
  }

  datatype Login = Login(email: string, password: string)

  function LoginIssues(v: Login, emailValid: bool): (r: seq<Issue>)
    ensures !emailValid <==> EmailInvalid in r
    ensures |v.password| < 8 ==> PasswordShort in r
    ensures r == [] <==> emailValid && PasswordRegex(v.password)
  {
    (if !emailValid then [EmailInvalid] else []) + PasswordIssues(v.password)
  }

  /** A login password missing a lowercase letter, an uppercase letter or a
      digit is refused. */
  lemma LoginNeedsAllClasses(v: Login, emailValid: bool)
    requires !HasChar(v.password, IsLower) || !HasChar(v.password, IsUpper) || !HasChar(v.password, IsDigit)
    ensures PasswordWeak in LoginIssues(v, emailValid)
  {
    PasswordRegexMeaning(v.password);
  }

  /** The label next to the registration password field: none while the
      field is empty, then "Strong" or "Weak". */
  function RegistrationStrength(pw: string): (shown: Option<string>)
    ensures shown.None? <==> pw == ""
    ensures shown == Some("Strong") <==> pw != "" && PasswordRegex(pw)
    ensures pw != "" && !PasswordRegex(pw) ==> shown == Some("Weak")
  {
    if pw == "" then None else Some(if PasswordRegex(pw) then "Strong" else "Weak")
  }

  /** The label next to the login password field. */
  function LoginStrength(pw: string): (shown: Option<string>)
    ensures shown.None? <==> pw == ""
    ensures shown == Some("Strong password") <==> pw != "" && PasswordRegex(pw)
    ensures pw != "" && !PasswordRegex(pw) ==> shown == Some("Needs improvement")
  {
    if pw == "" then None else Some(if PasswordRegex(pw) then "Strong password" else "Needs improvement")
  }
}
