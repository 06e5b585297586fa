/** The browser's sign-up form: its two checks, in order, the body it posts
    to /users, and the submit button's label. */
module SignUpForm {
  import opened Wrappers

  const MissingFields: string := "Please fill in all required fields"
  const PasswordMismatch: string := "Passwords do not match"

  datatype Form = Form(name: string, email: string, password: string, confirmPassword: string,
                       isTrainer: bool, error: Option<string>)

  /** The JSON body: exactly these four properties. */
  datatype SignUpBody = SignUpBody(name: string, email: string, password: string, isTrainer: bool)

  /** The first failing check, if any: the required fields are looked at
      before the confirmation, and `handleSubmit`'s own check ignores the
      confirmation when it looks for empty fields. */
  function Problem(f: Form): (r: Option<string>)
    ensures r == Some(MissingFields) <==> f.name == "" || f.email == "" || f.password == ""
    ensures r == Some(PasswordMismatch) <==>
              f.name != "" && f.email != "" && f.password != "" && f.password != f.confirmPassword
    ensures r.None? || r == Some(MissingFields) || r == Some(PasswordMismatch)
  {
    if f.name == "" || f.email == "" || f.password == "" then Some(MissingFields)
    else if f.password != f.confirmPassword then Some(PasswordMismatch)
    else None
  }

  /** `handleSubmit` up to the request: a failing check sets its message and
      sends nothing; otherwise the error is cleared and the body carries the
      fields as typed, including the trainer flag. */
  function Submit(f: Form): (r: (Form, Option<SignUpBody>))
    ensures r.1.Some? <==> f.name != "" && f.email != "" && f.password != "" && f.password == f.confirmPassword
    ensures r.1.None? ==> r.0 == f.(error := Problem(f))
    ensures r.1.Some? ==> r.1.value == SignUpBody(f.name, f.email, f.password, f.isTrainer) && r.0.error == None
  {
    match Problem(f)
    case Some(message) => (f.(error := Some(message)), None)
    case None => (f.(error := None), Some(SignUpBody(f.name, f.email, f.password, f.isTrainer)))
  }

  /** With both a blank field and a mismatch, the blank field is reported. */
  lemma RequiredFieldsReportedFirst(f: Form)
    requires f.email == "" && f.password != f.confirmPassword
    ensures Submit(f).0.error == Some(MissingFields)
  {
  }

  function SubmitLabel(isLoading: bool, isTrainer: bool): (r: string)
    ensures r == "Sign Up as Trainer" <==> isTrainer && !isLoading
    ensures isLoading <==> r == "Creating Account..."
  {
    if isLoading then "Creating Account..." else if isTrainer then "Sign Up as Trainer" else "Sign Up as User"
  }
}
