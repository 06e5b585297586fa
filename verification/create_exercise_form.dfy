/** The create-exercise dialog: its check, the body it posts to /exercises,
    and what a success, a failure or a close leaves in the fields. */
module CreateExerciseForm {
  import opened Wrappers

  const MissingFields: string := "Please fill in all fields"
  const CreateFailed: string := "Failed to create exercise"

  datatype Form = Form(name: string, description: string, targetMuscleGroup: string, error: Option<string>)

  datatype ExerciseBody = ExerciseBody(name: string, description: string, targetMuscleGroup: string)

  /** How the request ended. The API helper throws `Error` objects, whose
      message is shown; anything else thrown gets the generic message. */
  datatype Outcome = Succeeded | FailedWithError(message: string) | FailedOtherwise

  const Cleared: Form := Form("", "", "", None)

  /** `handleSubmit` up to the request. */
  function Submit(f: Form): (r: (Form, Option<ExerciseBody>))
    ensures r.1.None? <==> f.name == "" || f.description == "" || f.targetMuscleGroup == ""
    ensures r.1.None? ==> r.0 == f.(error := Some(MissingFields))
    ensures r.1.Some? ==> r.1.value == ExerciseBody(f.name, f.description, f.targetMuscleGroup) && r.0.error == None
  {
    if f.name == "" || f.description == "" || f.targetMuscleGroup == "" then (f.(error := Some(MissingFields)), None)
    else (f.(error := None), Some(ExerciseBody(f.name, f.description, f.targetMuscleGroup)))
  }

  /** After the request: success empties the three fields; failure keeps them
      and shows the thrown error's message, or the generic one. */
  function Finish(f: Form, outcome: Outcome): (r: Form)
    ensures outcome.Succeeded? ==> r.name == "" && r.description == "" && r.targetMuscleGroup == "" && r.error == f.error
    ensures !outcome.Succeeded? ==> r.name == f.name && r.description == f.description && r.targetMuscleGroup == f.targetMuscleGroup
    ensures outcome.FailedWithError? ==> r.error == Some(outcome.message)
    ensures outcome.FailedOtherwise? ==> r.error == Some(CreateFailed)
  {
    match outcome
    case Succeeded => f.(name := "", description := "", targetMuscleGroup := "")
    case FailedWithError(message) => f.(error := Some(message))
    case FailedOtherwise => f.(error := Some(CreateFailed))
  }

  /** `handleClose`: everything is cleared, error included. */
  function Close(f: Form): (r: Form)
    ensures r.name == "" && r.description == "" && r.targetMuscleGroup == "" && r.error == None
  {
    Cleared
  }

  /** A successful create leaves nothing behind: the next submit from the
      same dialog is rejected until the fields are filled in again, and
      closing afterwards reaches the same state as closing at once. */
  lemma SuccessClearsForm(f: Form)
    requires Submit(f).1.Some?
    ensures var after := Finish(Submit(f).0, Succeeded);
            Submit(after).1.None? && after.error == None && Close(after) == Close(f)
  {
  }
}
