/** The entity classes of the model project (Exercise, User, UserExercise),
    the identity-store principal, and the column constraints the database
    context declares for them. */
module Entities {
  import opened Wrappers

  /** A Guid, represented by its numeric value; Guid.Empty is zero. */
  type Guid = nat

  const EmptyGuid: Guid := 0

  /** The values Guid.NewGuid produces: never Guid.Empty. */
  type NewGuid = g: Guid | g != EmptyGuid witness 1

  /** A DateTime, counted in 100-nanosecond ticks. */
  type Time = int

  const TicksPerDay: int := 864_000_000_000

  /** DateTime.MaxValue in ticks; date arithmetic past it raises. */
  const MaxTime: Time := 3_155_378_975_999_999_999

  /** A C# `int`. */
  type Int32 = x: int | -0x8000_0000 <= x < 0x8000_0000

  datatype Exercise = Exercise(
    id: Guid,
    name: string,
    description: string,
    targetMuscleGroup: string,
    createdAt: Time)

  /** The password is a plain string column: there is no hashed-credential type. */
  datatype User = User(id: Guid, name: string, email: string, password: string)

  /** One row of the user-exercise association. The targets are optional
      32-bit integers with no sign or range constraint; the notes are optional. */
  datatype Assignment = Assignment(
    userId: Guid,
    exerciseId: Guid,
    dateAssigned: Time,
    targetSets: Option<Int32>,
    targetReps: Option<Int32>,
    notes: Option<string>)

  /** An identity-store account: separate from the domain User and linked to it
      only by the e-mail value. `roles` lists the role names the account is in. */
  datatype Principal = Principal(
    id: Guid,
    userName: Option<string>,
    email: Option<string>,
    emailConfirmed: bool,
    passwordHash: string,
    roles: seq<string>)

  /** `new Exercise { }` with nothing assigned: a fresh id, empty strings and
      the construction time. The navigation collection is derived from the
      association rows, so it starts out empty (see Assignments). */
  function NewExercise(id: NewGuid, now: Time): Exercise {
    Exercise(id, "", "", "", now)
  }

  /** `new User { Name = .., Email = .., Password = .. }`: the three strings are
      required members and have no default; only the id is generated. */
  function NewUser(id: NewGuid, name: string, email: string, password: string): User {
    User(id, name, email, password)
  }

  /** How many UTF-16 code units a character takes: two for a character
      outside the Basic Multilingual Plane, one otherwise. */
  function Utf16Units(c: char): nat {
    if c as int < 0x1_0000 then 1 else 2
  }

  /** The length .NET reports for a string (String.Length): its UTF-16 code
      units, which is also what an nvarchar(n) column limits. */
  function Utf16Length(text: string): nat {
    if |text| == 0 then 0 else Utf16Units(text[0]) + Utf16Length(text[1..])
  }

  /** A string is at least as long as its characters and at most twice that;
      Basic-Multilingual-Plane text has one code unit per character, and text
      wholly outside it two. */
  lemma {:induction false} Utf16LengthBounds(text: string)
    ensures |text| <= Utf16Length(text) <= 2 * |text|
    ensures (forall i | 0 <= i < |text| :: text[i] as int < 0x1_0000) ==> Utf16Length(text) == |text|
    ensures (forall i | 0 <= i < |text| :: text[i] as int >= 0x1_0000) ==> Utf16Length(text) == 2 * |text|
    decreases |text|
  {
    if |text| > 0 {
      Utf16LengthBounds(text[1..]);
      assert forall i | 1 <= i < |text| :: text[1..][i - 1] == text[i];
    }
  }

  // Column lengths declared in OnModelCreating, in UTF-16 code units.
  // Required string columns are also NOT NULL; strings are never null in
  // this model, so a missing string is not represented (see the README).
  const ExerciseNameMax: nat := 100
  const ExerciseDescriptionMax: nat := 500
  const ExerciseMuscleGroupMax: nat := 100
  const UserFieldMax: nat := 100

  predicate ExerciseFits(e: Exercise) {
    && Utf16Length(e.name) <= ExerciseNameMax
    && Utf16Length(e.description) <= ExerciseDescriptionMax
    && Utf16Length(e.targetMuscleGroup) <= ExerciseMuscleGroupMax
  }

  predicate UserFits(u: User) {
    && Utf16Length(u.name) <= UserFieldMax
    && Utf16Length(u.email) <= UserFieldMax
    && Utf16Length(u.password) <= UserFieldMax
  }

  /** Why SaveChanges raises: a primary key already present, or a string
      longer than its column. */
  datatype StoreError = DuplicateKey | ValueTooLong

  /** The default exercise is a storable row. */
  lemma NewExerciseFits(id: NewGuid, now: Time)
    ensures ExerciseFits(NewExercise(id, now))
    ensures NewExercise(id, now).id != EmptyGuid
  {
  }
}
