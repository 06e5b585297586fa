/** The exercise catalogue handlers: create, update, delete, get by id and
    get all. */
module ExerciseHandlers {
  import opened Wrappers
  import opened Entities
  import opened Store
  import opened Tables
  import opened Seqs

  datatype CreateExerciseCommand = CreateExerciseCommand(name: string, description: string, targetMuscleGroup: string)

  datatype UpdateExerciseCommand = UpdateExerciseCommand(
    id: Guid, name: string, description: string, targetMuscleGroup: string)

  /** The three editable fields fit their columns. */
  predicate FieldsFit(name: string, description: string, targetMuscleGroup: string) {
    && Utf16Length(name) <= ExerciseNameMax
    && Utf16Length(description) <= ExerciseDescriptionMax
    && Utf16Length(targetMuscleGroup) <= ExerciseMuscleGroupMax
  }

  /** The exercise the create handler builds: NewGuid id, the command's
      strings, and the clock reading as CreatedAt. */
  function Built(cmd: CreateExerciseCommand, id: NewGuid, now: Time): Exercise {
    NewExercise(id, now).(name := cmd.name, description := cmd.description, targetMuscleGroup := cmd.targetMuscleGroup)
  }

  /** CreateExerciseCommandHandler.Handle. `newId` is what Guid.NewGuid
      returned and `now` what DateTime.UtcNow returned. */
  function CreateExercise(s: State, cmd: CreateExerciseCommand, newId: NewGuid, now: Time): (r: (Result<Guid, StoreError>, State))
    ensures r.0.Ok? <==> newId !in s.exercises && FieldsFit(cmd.name, cmd.description, cmd.targetMuscleGroup)
    ensures r.0 == Err(DuplicateKey) <==> newId in s.exercises
    ensures r.0.Ok? ==> r.0.value == newId && r.0.value != EmptyGuid
    ensures r.0.Ok? ==> r.1.exercises.Keys == s.exercises.Keys + {newId}
    ensures r.0.Ok? ==> forall id | id in s.exercises :: r.1.exercises[id] == s.exercises[id]
    ensures r.0.Ok? ==>
              var e := r.1.exercises[newId];
              && e.id == newId && e.name == cmd.name && e.description == cmd.description
              && e.targetMuscleGroup == cmd.targetMuscleGroup && e.createdAt == now
    ensures r.0.Err? ==> r.1 == s
    ensures r.1.users == s.users && SameExceptTables(s, r.1)
  {
    var e := Built(cmd, newId, now);
    match AddRow(s.exercises, newId, e, ExerciseFits(e))
    case Err(err) => (Err(err), s)
    case Ok(t) => (Ok(newId), s.(exercises := t))
  }

  /** UpdateExerciseCommandHandler.Handle: an unknown id returns false and
      writes nothing; otherwise the three strings are overwritten, keeping
      the id and CreatedAt, and the result is true. */
  function UpdateExercise(s: State, cmd: UpdateExerciseCommand): (r: (Result<bool, StoreError>, State))
    ensures r.0 == Ok(false) <==> cmd.id !in s.exercises
    ensures r.0 == Ok(true) <==> cmd.id in s.exercises && FieldsFit(cmd.name, cmd.description, cmd.targetMuscleGroup)
    ensures r.0 != Ok(true) ==> r.1 == s
    ensures r.0 == Ok(true) ==>
              && r.1.exercises.Keys == s.exercises.Keys
              && (forall id | id in s.exercises && id != cmd.id :: r.1.exercises[id] == s.exercises[id])
    ensures r.0 == Ok(true) ==>
              var before, after := s.exercises[cmd.id], r.1.exercises[cmd.id];
              && after.id == before.id && after.createdAt == before.createdAt
              && after.name == cmd.name && after.description == cmd.description
              && after.targetMuscleGroup == cmd.targetMuscleGroup
    ensures r.1.users == s.users && SameExceptTables(s, r.1)
  {
    if cmd.id !in s.exercises then (Ok(false), s)
    else
      var e := s.exercises[cmd.id].(name := cmd.name, description := cmd.description,
                                     targetMuscleGroup := cmd.targetMuscleGroup);
      match ReplaceRow(s.exercises, cmd.id, e, ExerciseFits(e))
      case Err(err) => (Err(err), s)
      case Ok(t) => (Ok(true), s.(exercises := t))
  }

  /** DeleteExerciseCommandHandler.Handle. The association's foreign keys
      are required, so the delete cascades: the exercise's rows go with it. */
  function DeleteExercise(s: State, id: Guid): (r: (bool, State))
    ensures r.0 <==> id in s.exercises
    ensures !r.0 ==> r.1 == s
    ensures r.1.exercises.Keys == s.exercises.Keys - {id}
    ensures forall k | k in r.1.exercises :: r.1.exercises[k] == s.exercises[k]
    ensures r.0 ==> forall a | a in r.1.assignments :: a in s.assignments && a.exerciseId != id
    ensures forall a | a in s.assignments && a.exerciseId != id :: a in r.1.assignments
    ensures r.1.users == s.users && r.1.principals == s.principals && r.1.roleNames == s.roleNames
  {
    if id !in s.exercises then (false, s)
    else
      FilterMembers(s.assignments, NotOfExercise(id));
      (true, s.(exercises := s.exercises - {id}, assignments := Filter(s.assignments, NotOfExercise(id))))
  }

  /** Deleting an exercise leaves every remaining row pointing at stored
      rows: the cascade is what keeps the references whole. */
  lemma DeleteExerciseKeepsIntegrity(s: State, id: Guid)
    requires RefIntegrity(s)
    ensures RefIntegrity(DeleteExercise(s, id).1)
  {
    var t := DeleteExercise(s, id).1;
    forall k | 0 <= k < |t.assignments|
      ensures t.assignments[k].userId in t.users && t.assignments[k].exerciseId in t.exercises
    {
      var a := t.assignments[k];
      assert a in t.assignments;
      var j :| 0 <= j < |s.assignments| && s.assignments[j] == a;
    }
  }

  /** GetExerciseByIdQueryHandler.Handle: the stored exercise whose Id is
      `id`, or null. */
  function GetExerciseById(s: State, id: Guid): (r: Option<Exercise>)
    ensures r.Some? ==> r.value in s.exercises.Values
    ensures TablesWellKeyed(s) ==> (r.Some? ==> r.value.id == id)
    ensures TablesWellKeyed(s) ==> (r.None? <==> forall e | e in s.exercises.Values :: e.id != id)
  {
    if id in s.exercises then Some(s.exercises[id]) else None
  }

  /** GetAllExerciseQueryHandler.Handle: every stored exercise once. */
  method GetAllExercises(s: State) returns (r: seq<Exercise>)
    ensures |r| == |s.exercises|
    ensures forall e | e in s.exercises.Values :: e in r
    ensures forall e | e in r :: e in s.exercises.Values
    ensures TablesWellKeyed(s) ==> forall i, j | 0 <= i < j < |r| :: r[i].id != r[j].id
  {
    ghost var keys;
    r, keys := Rows(s.exercises);
  }

  /** A created exercise is found by its new id with the command's fields and
      the creation time; every other lookup answers as before. */
  lemma CreateThenGet(s: State, cmd: CreateExerciseCommand, newId: NewGuid, now: Time)
    ensures var r := CreateExercise(s, cmd, newId, now);
            r.0.Ok? ==> GetExerciseById(r.1, r.0.value)
                        == Some(Exercise(newId, cmd.name, cmd.description, cmd.targetMuscleGroup, now))
    ensures var r := CreateExercise(s, cmd, newId, now);
            forall id | id != newId :: GetExerciseById(r.1, id) == GetExerciseById(s, id)
  {
  }

  /** After a successful update the lookup returns the new strings with the
      old CreatedAt; an update of an unknown id means the lookup was empty. */
  lemma UpdateThenGet(s: State, cmd: UpdateExerciseCommand)
    ensures var r := UpdateExercise(s, cmd);
            r.0 == Ok(true) ==>
              var before := s.exercises[cmd.id];
              GetExerciseById(r.1, cmd.id)
              == Some(Exercise(before.id, cmd.name, cmd.description, cmd.targetMuscleGroup, before.createdAt))
    ensures UpdateExercise(s, cmd).0 == Ok(false) <==> GetExerciseById(s, cmd.id).None?
    ensures var r := UpdateExercise(s, cmd);
            forall id | id != cmd.id :: GetExerciseById(r.1, id) == GetExerciseById(s, id)
  {
  }

  /** After a delete the lookup is empty and a second delete returns false;
      the first returned true exactly when the lookup found something. */
  lemma DeleteThenGet(s: State, id: Guid)
    ensures DeleteExercise(s, id).0 <==> GetExerciseById(s, id).Some?
    ensures GetExerciseById(DeleteExercise(s, id).1, id).None?
    ensures !DeleteExercise(DeleteExercise(s, id).1, id).0
    ensures forall other | other != id ::
              GetExerciseById(DeleteExercise(s, id).1, other) == GetExerciseById(s, other)
  {
  }

  /** Every exercise command keeps the store's invariant. */
  lemma ExerciseCommandsKeepValid(s: State, create: CreateExerciseCommand, newId: NewGuid, now: Time,
                                  update: UpdateExerciseCommand, id: Guid)
    requires Valid(s)
    ensures Valid(CreateExercise(s, create, newId, now).1)
    ensures Valid(UpdateExercise(s, update).1)
    ensures Valid(DeleteExercise(s, id).1)
  {
    FilterKeepsUniquePairs(s.assignments, NotOfExercise(id));
  }

  /** The first test case: creating "Push-up" in an empty catalogue yields a
      non-empty id and a single stored exercise of that name. */
  lemma CreatePushUpInEmptyCatalogue(newId: NewGuid, now: Time)
    ensures var r := CreateExercise(Empty, CreateExerciseCommand("Push-up", "Basic upper body exercise", "Chest"), newId, now);
            && r.0.Ok? && r.0.value != EmptyGuid
            && |r.1.exercises| == 1
            && r.1.exercises[r.0.value].name == "Push-up"
  {
    Utf16LengthBounds("Push-up");
    Utf16LengthBounds("Basic upper body exercise");
    Utf16LengthBounds("Chest");
    var r := CreateExercise(Empty, CreateExerciseCommand("Push-up", "Basic upper body exercise", "Chest"), newId, now);
    assert r.1.exercises.Keys == {newId};
  }
}
