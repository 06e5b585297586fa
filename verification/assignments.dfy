/** The user-exercise association handlers: the assign upsert, the remove,
    and the two read projections over the association rows. */
module Assignments {
  import opened Wrappers
  import opened Entities
  import opened Store
  import opened Seqs
  import ExerciseHandlers
  import UserHandlers

  datatype AssignExerciseToUserCommand = AssignExerciseToUserCommand(
    userId: Guid,
    exerciseId: Guid,
    targetSets: Option<Int32>,
    targetReps: Option<Int32>,
    notes: Option<string>)

  /** The row test both handlers hand to FirstOrDefault. */
  function PairIs(userId: Guid, exerciseId: Guid): Assignment -> bool {
    (a: Assignment) => a.userId == userId && a.exerciseId == exerciseId
  }

  function NotPair(userId: Guid, exerciseId: Guid): Assignment -> bool {
    (a: Assignment) => !(a.userId == userId && a.exerciseId == exerciseId)
  }

  predicate HasPair(rows: seq<Assignment>, userId: Guid, exerciseId: Guid) {
    exists k | 0 <= k < |rows| :: rows[k].userId == userId && rows[k].exerciseId == exerciseId
  }

  /** The row FirstOrDefault finds for the pair, if any. */
  function RowFor(rows: seq<Assignment>, userId: Guid, exerciseId: Guid): Option<Assignment> {
    match FindFirst(rows, PairIs(userId, exerciseId))
    case None => None
    case Some(i) => Some(rows[i])
  }

  /** The rows of every other pair, in table order. */
  function OtherRows(rows: seq<Assignment>, userId: Guid, exerciseId: Guid): seq<Assignment> {
    Filter(rows, NotPair(userId, exerciseId))
  }

  /** The row the command asks for, stamped with the clock reading. */
  function RequestedRow(cmd: AssignExerciseToUserCommand, now: Time): Assignment {
    Assignment(cmd.userId, cmd.exerciseId, now, cmd.targetSets, cmd.targetReps, cmd.notes)
  }

  /** AssignExerciseToUserCommandHandler.Handle. An unknown user or exercise
      returns false and writes nothing. Otherwise an existing row for the pair
      has its targets, notes and date overwritten (a null in the command
      overwrites too), or else one row is appended; either way it returns true. */
  function AssignExerciseToUser(s: State, cmd: AssignExerciseToUserCommand, now: Time): (r: (bool, State))
    ensures r.0 <==> cmd.userId in s.users && cmd.exerciseId in s.exercises
    ensures !r.0 ==> r.1 == s
    ensures r.1.users == s.users && r.1.exercises == s.exercises
    ensures r.1.principals == s.principals && r.1.roleNames == s.roleNames
    ensures r.0 ==> RowFor(r.1.assignments, cmd.userId, cmd.exerciseId) == Some(RequestedRow(cmd, now))
    ensures r.0 && HasPair(s.assignments, cmd.userId, cmd.exerciseId) ==>
              |r.1.assignments| == |s.assignments|
    ensures r.0 && !HasPair(s.assignments, cmd.userId, cmd.exerciseId) ==>
              r.1.assignments == s.assignments + [RequestedRow(cmd, now)]
    ensures OtherRows(r.1.assignments, cmd.userId, cmd.exerciseId)
         == OtherRows(s.assignments, cmd.userId, cmd.exerciseId)
  {
    var u, e := cmd.userId, cmd.exerciseId;
    if u !in s.users then (false, s)
    else if e !in s.exercises then (false, s)
    else
      var row := RequestedRow(cmd, now);
      match FindFirst(s.assignments, PairIs(u, e))
      case Some(i) =>
        FilterUpdateRejected(s.assignments, i, row, NotPair(u, e));
        var rows' := s.assignments[i := row];
        assert rows'[i] == row;
        assert forall k | 0 <= k < i :: rows'[k] == s.assignments[k];
        (true, s.(assignments := s.assignments[i := row]))
      case None =>
        FilterAppend(s.assignments, row, NotPair(u, e));
        var rows' := s.assignments + [row];
        assert rows'[|s.assignments|] == row;
        assert forall k | 0 <= k < |s.assignments| :: rows'[k] == s.assignments[k];
        (true, s.(assignments := s.assignments + [row]))
  }

  /** Under uniqueness a pair has at most one row. */
  lemma {:induction false} AtMostOneRow(rows: seq<Assignment>, userId: Guid, exerciseId: Guid)
    requires UniquePairs(rows)
    ensures Count(rows, PairIs(userId, exerciseId)) <= 1
    decreases |rows|
  {
    if |rows| > 0 {
      var p := PairIs(userId, exerciseId);
      var tail := rows[1..];
      assert UniquePairs(tail) by {
        forall i, j | 0 <= i < j < |tail|
          ensures !SamePair(tail[i], tail[j])
        {
          assert tail[i] == rows[i + 1] && tail[j] == rows[j + 1];
        }
      }
      AtMostOneRow(tail, userId, exerciseId);
      if p(rows[0]) {
        forall k | 0 <= k < |tail|
          ensures !p(tail[k])
        {
          assert tail[k] == rows[k + 1];
          assert !SamePair(rows[0], rows[k + 1]);
        }
        CountPositive(tail, p);
      }
    }
  }

  /** The key invariant: assign keeps at most one row per (UserId, ExerciseId),
      and after a successful assign the pair has exactly one row. */
  lemma AssignPreservesUniquePairs(s: State, cmd: AssignExerciseToUserCommand, now: Time)
    requires UniquePairs(s.assignments)
    ensures UniquePairs(AssignExerciseToUser(s, cmd, now).1.assignments)
    ensures AssignExerciseToUser(s, cmd, now).0 ==>
              Count(AssignExerciseToUser(s, cmd, now).1.assignments, PairIs(cmd.userId, cmd.exerciseId)) == 1
  {
    var u, e := cmd.userId, cmd.exerciseId;
    var p := PairIs(u, e);
    var rows := s.assignments;
    var r := AssignExerciseToUser(s, cmd, now);
    if r.0 {
      var row := RequestedRow(cmd, now);
      match FindFirst(rows, p)
      case Some(i) =>
        var rows' := rows[i := row];
        assert r.1.assignments == rows';
        forall a, b | 0 <= a < b < |rows'|
          ensures !SamePair(rows'[a], rows'[b])
        {
          assert SamePair(rows'[a], rows'[b]) <==> SamePair(rows[a], rows[b]);
        }
        CountUpdateKept(rows, i, row, p);
        AtMostOneRow(rows, u, e);
        CountPositive(rows, p);
      case None =>
        var rows' := rows + [row];
        assert r.1.assignments == rows';
        forall a, b | 0 <= a < b < |rows'|
          ensures !SamePair(rows'[a], rows'[b])
        {
          if b == |rows| {
            assert !p(rows[a]);
          } else {
            assert rows'[a] == rows[a] && rows'[b] == rows[b];
          }
        }
        FilterAppend(rows, row, p);
        CountPositive(rows, p);
    }
  }

  /** Assigning the same pair twice leaves one row, holding the second
      command's targets and notes in full (overwrite, not merge). */
  lemma AssignTwiceKeepsSecond(s: State, first: AssignExerciseToUserCommand, second: AssignExerciseToUserCommand,
                               t1: Time, t2: Time)
    requires UniquePairs(s.assignments)
    requires first.userId == second.userId && first.exerciseId == second.exerciseId
    requires first.userId in s.users && first.exerciseId in s.exercises
    ensures var s2 := AssignExerciseToUser(AssignExerciseToUser(s, first, t1).1, second, t2).1;
            && Count(s2.assignments, PairIs(second.userId, second.exerciseId)) == 1
            && RowFor(s2.assignments, second.userId, second.exerciseId) == Some(RequestedRow(second, t2))
  {
    var s1 := AssignExerciseToUser(s, first, t1).1;
    AssignPreservesUniquePairs(s, first, t1);
    AssignPreservesUniquePairs(s1, second, t2);
  }

  /** RemoveExerciseFromUserCommandHandler.Handle: deletes the first row for
      the pair and returns true, or returns false when there is none. It looks
      only at the rows, never at the users or exercises tables. */
  function RemoveExerciseFromUser(s: State, userId: Guid, exerciseId: Guid): (r: (bool, State))
    ensures r.0 <==> HasPair(s.assignments, userId, exerciseId)
    ensures !r.0 ==> r.1 == s
    ensures r.1 == s.(assignments := r.1.assignments)
    ensures r.0 ==> |r.1.assignments| + 1 == |s.assignments|
    ensures r.0 ==>
              Count(r.1.assignments, PairIs(userId, exerciseId)) + 1 == Count(s.assignments, PairIs(userId, exerciseId))
    ensures OtherRows(r.1.assignments, userId, exerciseId) == OtherRows(s.assignments, userId, exerciseId)
  {
    var rows := s.assignments;
    match FindFirst(rows, PairIs(userId, exerciseId))
    case None => (false, s)
    case Some(i) =>
      FilterDeleteRejected(rows, i, NotPair(userId, exerciseId));
      CountDeleteKept(rows, i, PairIs(userId, exerciseId));
      (true, s.(assignments := rows[..i] + rows[i + 1..]))
  }

  lemma DeleteKeepsUnique(rows: seq<Assignment>, i: nat)
    requires UniquePairs(rows) && i < |rows|
    ensures UniquePairs(rows[..i] + rows[i + 1..])
  {
    var rows' := rows[..i] + rows[i + 1..];
    forall a, b | 0 <= a < b < |rows'|
      ensures !SamePair(rows'[a], rows'[b])
    {
      var a0 := if a < i then a else a + 1;
      var b0 := if b < i then b else b + 1;
      assert rows'[a] == rows[a0] && rows'[b] == rows[b0];
    }
  }

  /** Under uniqueness a successful remove leaves no row for the pair, keeps
      uniqueness, and an identical second remove returns false. */
  lemma RemoveClearsPair(s: State, userId: Guid, exerciseId: Guid)
    requires UniquePairs(s.assignments)
    ensures var r := RemoveExerciseFromUser(s, userId, exerciseId);
            && !HasPair(r.1.assignments, userId, exerciseId)
            && UniquePairs(r.1.assignments)
            && !RemoveExerciseFromUser(r.1, userId, exerciseId).0
  {
    var p := PairIs(userId, exerciseId);
    var r := RemoveExerciseFromUser(s, userId, exerciseId);
    AtMostOneRow(s.assignments, userId, exerciseId);
    CountPositive(s.assignments, p);
    CountPositive(r.1.assignments, p);
    match FindFirst(s.assignments, p)
    case None =>
    case Some(i) =>
      DeleteKeepsUnique(s.assignments, i);
  }

  /** Without the uniqueness invariant a remove can leave a row behind: the
      handler deletes only the first match. */
  lemma RemoveNeedsUniqueness()
    ensures var row := Assignment(1, 2, 0, None, None, None);
            var s := Empty.(assignments := [row, row]);
            var r := RemoveExerciseFromUser(s, 1, 2);
            r.0 && HasPair(r.1.assignments, 1, 2)
  {
    var row := Assignment(1, 2, 0, None, None, None);
    var s := Empty.(assignments := [row, row]);
    assert PairIs(1, 2)(s.assignments[0]);
    var r := RemoveExerciseFromUser(s, 1, 2);
    assert r.1.assignments == [row];
  }

  // ---------------------------------------------------------------------
  // Read projections

  /** `Where(ue => ue.UserId == userId).Select(ue => ue.Exercise)`: the
      exercise each of the user's rows points at, in row order. A row whose
      exercise is gone has nothing to join with and contributes nothing. */
  function ExercisesOfRows(rows: seq<Assignment>, exercises: map<Guid, Exercise>, userId: Guid): (r: seq<Exercise>)
    ensures |r| <= |rows|
    decreases |rows|
  {
    if |rows| == 0 then []
    else
      var head := rows[0];
      (if head.userId == userId && head.exerciseId in exercises then [exercises[head.exerciseId]] else [])
      + ExercisesOfRows(rows[1..], exercises, userId)
  }

  /** Every exercise listed comes from one of the user's rows, and every one
      of the user's rows whose exercise exists is listed. */
  lemma {:induction false} ExercisesOfRowsMembers(rows: seq<Assignment>, exercises: map<Guid, Exercise>, userId: Guid)
    ensures forall x | x in ExercisesOfRows(rows, exercises, userId) ::
              exists k | 0 <= k < |rows| ::
                rows[k].userId == userId && rows[k].exerciseId in exercises && exercises[rows[k].exerciseId] == x
    ensures forall k | 0 <= k < |rows| && rows[k].userId == userId && rows[k].exerciseId in exercises ::
              exercises[rows[k].exerciseId] in ExercisesOfRows(rows, exercises, userId)
    decreases |rows|
  {
    if |rows| > 0 {
      var tail := rows[1..];
      ExercisesOfRowsMembers(tail, exercises, userId);
      forall k | 1 <= k < |rows|
        ensures rows[k] == tail[k - 1]
      {
      }
    }
  }

  /** GetUserExercisesQueryHandler.Handle. */
  function GetUserExercises(s: State, userId: Guid): (r: seq<Exercise>)
    ensures forall x | x in r ::
              exists k | 0 <= k < |s.assignments| ::
                && s.assignments[k].userId == userId
                && s.assignments[k].exerciseId in s.exercises
                && s.exercises[s.assignments[k].exerciseId] == x
    ensures forall k | 0 <= k < |s.assignments| ::
              s.assignments[k].userId == userId && s.assignments[k].exerciseId in s.exercises ==>
                s.exercises[s.assignments[k].exerciseId] in r
    ensures (forall k | 0 <= k < |s.assignments| :: s.assignments[k].userId != userId) ==> r == []
  {
    ExercisesOfRowsMembers(s.assignments, s.exercises, userId);
    var r := ExercisesOfRows(s.assignments, s.exercises, userId);
    assert r != [] ==> r[0] in r;
    r
  }

  function OfUser(userId: Guid): Assignment -> bool {
    (a: Assignment) => a.userId == userId
  }

  predicate DistinctExerciseIds(xs: seq<Exercise>) {
    forall i, j | 0 <= i < j < |xs| :: xs[i].id != xs[j].id
  }

  predicate ExercisesKeyed(exercises: map<Guid, Exercise>) {
    forall id | id in exercises :: exercises[id].id == id
  }

  /** With every row's exercise present, one entry per row of the user. */
  lemma {:induction false} ExercisesOfRowsLength(rows: seq<Assignment>, exercises: map<Guid, Exercise>, userId: Guid)
    requires forall k | 0 <= k < |rows| :: rows[k].exerciseId in exercises
    ensures |ExercisesOfRows(rows, exercises, userId)| == Count(rows, OfUser(userId))
    decreases |rows|
  {
    if |rows| > 0 {
      var tail := rows[1..];
      assert forall k | 0 <= k < |tail| :: tail[k] == rows[k + 1];
      ExercisesOfRowsLength(tail, exercises, userId);
    }
  }

  /** Under uniqueness and a keyed table no exercise is listed twice. */
  lemma {:induction false} ExercisesOfRowsDistinct(rows: seq<Assignment>, exercises: map<Guid, Exercise>, userId: Guid)
    requires UniquePairs(rows) && ExercisesKeyed(exercises)
    ensures DistinctExerciseIds(ExercisesOfRows(rows, exercises, userId))
    decreases |rows|
  {
    if |rows| > 0 {
      var tail := rows[1..];
      assert UniquePairs(tail) by {
        forall i, j | 0 <= i < j < |tail|
          ensures !SamePair(tail[i], tail[j])
        {
          assert tail[i] == rows[i + 1] && tail[j] == rows[j + 1];
        }
      }
      ExercisesOfRowsDistinct(tail, exercises, userId);
      var rest := ExercisesOfRows(tail, exercises, userId);
      var head := rows[0];
      if head.userId == userId && head.exerciseId in exercises {
        ExercisesOfRowsMembers(tail, exercises, userId);
        forall x | x in rest
          ensures x.id != head.exerciseId
        {
          var k :| 0 <= k < |tail| && tail[k].userId == userId && tail[k].exerciseId in exercises
                   && exercises[tail[k].exerciseId] == x;
          assert tail[k] == rows[k + 1];
          assert !SamePair(rows[0], rows[k + 1]);
        }
        var r := ExercisesOfRows(rows, exercises, userId);
        assert r == [exercises[head.exerciseId]] + rest;
        forall i, j | 0 <= i < j < |r|
          ensures r[i].id != r[j].id
        {
          if i == 0 {
            assert r[j] == rest[j - 1];
            assert r[j] in rest;
          } else {
            assert r[i] == rest[i - 1] && r[j] == rest[j - 1];
          }
        }
      }
    }
  }

  /** Length and distinctness of GetUserExercises on a consistent store. */
  lemma GetUserExercisesShape(s: State, userId: Guid)
    ensures RefIntegrity(s) ==> |GetUserExercises(s, userId)| == Count(s.assignments, OfUser(userId))
    ensures Valid(s) ==> DistinctExerciseIds(GetUserExercises(s, userId))
  {
    assert GetUserExercises(s, userId) == ExercisesOfRows(s.assignments, s.exercises, userId);
    if RefIntegrity(s) {
      ExercisesOfRowsLength(s.assignments, s.exercises, userId);
    }
    if Valid(s) {
      assert ExercisesKeyed(s.exercises);
      ExercisesOfRowsDistinct(s.assignments, s.exercises, userId);
    }
  }

  /** `Where(ue => ue.ExerciseId == exerciseId).Select(ue => ue.User)`. */
  function UsersOfRows(rows: seq<Assignment>, users: map<Guid, User>, exerciseId: Guid): (r: seq<User>)
    ensures |r| <= |rows|
    decreases |rows|
  {
    if |rows| == 0 then []
    else
      var head := rows[0];
      (if head.exerciseId == exerciseId && head.userId in users then [users[head.userId]] else [])
      + UsersOfRows(rows[1..], users, exerciseId)
  }

  lemma {:induction false} UsersOfRowsMembers(rows: seq<Assignment>, users: map<Guid, User>, exerciseId: Guid)
    ensures forall x | x in UsersOfRows(rows, users, exerciseId) ::
              exists k | 0 <= k < |rows| ::
                rows[k].exerciseId == exerciseId && rows[k].userId in users && users[rows[k].userId] == x
    ensures forall k | 0 <= k < |rows| && rows[k].exerciseId == exerciseId && rows[k].userId in users ::
              users[rows[k].userId] in UsersOfRows(rows, users, exerciseId)
    decreases |rows|
  {
    if |rows| > 0 {
      var tail := rows[1..];
      UsersOfRowsMembers(tail, users, exerciseId);
      forall k | 1 <= k < |rows|
        ensures rows[k] == tail[k - 1]
      {
      }
    }
  }

  /** GetExerciseUsersQueryHandler.Handle. */
  function GetExerciseUsers(s: State, exerciseId: Guid): (r: seq<User>)
    ensures forall x | x in r ::
              exists k | 0 <= k < |s.assignments| ::
                && s.assignments[k].exerciseId == exerciseId
                && s.assignments[k].userId in s.users
                && s.users[s.assignments[k].userId] == x
    ensures forall k | 0 <= k < |s.assignments| ::
              s.assignments[k].exerciseId == exerciseId && s.assignments[k].userId in s.users ==>
                s.users[s.assignments[k].userId] in r
    ensures (forall k | 0 <= k < |s.assignments| :: s.assignments[k].exerciseId != exerciseId) ==> r == []
  {
    UsersOfRowsMembers(s.assignments, s.users, exerciseId);
    var r := UsersOfRows(s.assignments, s.users, exerciseId);
    assert r != [] ==> r[0] in r;
    r
  }

  function OfExercise(exerciseId: Guid): Assignment -> bool {
    (a: Assignment) => a.exerciseId == exerciseId
  }

  predicate DistinctUserIds(xs: seq<User>) {
    forall i, j | 0 <= i < j < |xs| :: xs[i].id != xs[j].id
  }

  predicate UsersKeyed(users: map<Guid, User>) {
    forall id | id in users :: users[id].id == id
  }

  lemma {:induction false} UsersOfRowsLength(rows: seq<Assignment>, users: map<Guid, User>, exerciseId: Guid)
    requires forall k | 0 <= k < |rows| :: rows[k].userId in users
    ensures |UsersOfRows(rows, users, exerciseId)| == Count(rows, OfExercise(exerciseId))
    decreases |rows|
  {
    if |rows| > 0 {
      var tail := rows[1..];
      assert forall k | 0 <= k < |tail| :: tail[k] == rows[k + 1];
      UsersOfRowsLength(tail, users, exerciseId);
    }
  }

  lemma {:induction false} UsersOfRowsDistinct(rows: seq<Assignment>, users: map<Guid, User>, exerciseId: Guid)
    requires UniquePairs(rows) && UsersKeyed(users)
    ensures DistinctUserIds(UsersOfRows(rows, users, exerciseId))
    decreases |rows|
  {
    if |rows| > 0 {
      var tail := rows[1..];
      assert UniquePairs(tail) by {
        forall i, j | 0 <= i < j < |tail|
          ensures !SamePair(tail[i], tail[j])
        {
          assert tail[i] == rows[i + 1] && tail[j] == rows[j + 1];
        }
      }
      UsersOfRowsDistinct(tail, users, exerciseId);
      var rest := UsersOfRows(tail, users, exerciseId);
      var head := rows[0];
      if head.exerciseId == exerciseId && head.userId in users {
        UsersOfRowsMembers(tail, users, exerciseId);
        forall x | x in rest
          ensures x.id != head.userId
        {
          var k :| 0 <= k < |tail| && tail[k].exerciseId == exerciseId && tail[k].userId in users
                   && users[tail[k].userId] == x;
          assert tail[k] == rows[k + 1];
          assert !SamePair(rows[0], rows[k + 1]);
        }
        var r := UsersOfRows(rows, users, exerciseId);
        assert r == [users[head.userId]] + rest;
        forall i, j | 0 <= i < j < |r|
          ensures r[i].id != r[j].id
        {
          if i == 0 {
            assert r[j] == rest[j - 1];
            assert r[j] in rest;
          } else {
            assert r[i] == rest[i - 1] && r[j] == rest[j - 1];
          }
        }
      }
    }
  }

  /** Length and distinctness of GetExerciseUsers on a consistent store. */
  lemma GetExerciseUsersShape(s: State, exerciseId: Guid)
    ensures RefIntegrity(s) ==> |GetExerciseUsers(s, exerciseId)| == Count(s.assignments, OfExercise(exerciseId))
    ensures Valid(s) ==> DistinctUserIds(GetExerciseUsers(s, exerciseId))
  {
    assert GetExerciseUsers(s, exerciseId) == UsersOfRows(s.assignments, s.users, exerciseId);
    if RefIntegrity(s) {
      UsersOfRowsLength(s.assignments, s.users, exerciseId);
    }
    if Valid(s) {
      assert UsersKeyed(s.users);
      UsersOfRowsDistinct(s.assignments, s.users, exerciseId);
    }
  }

  /** Assign keeps the store's invariant and its referential integrity. */
  lemma AssignKeepsInvariants(s: State, cmd: AssignExerciseToUserCommand, now: Time)
    ensures Valid(s) ==> Valid(AssignExerciseToUser(s, cmd, now).1)
    ensures RefIntegrity(s) ==> RefIntegrity(AssignExerciseToUser(s, cmd, now).1)
  {
    var r := AssignExerciseToUser(s, cmd, now);
    if Valid(s) {
      AssignPreservesUniquePairs(s, cmd, now);
    }
    if RefIntegrity(s) && r.0 {
      var row := RequestedRow(cmd, now);
      match FindFirst(s.assignments, PairIs(cmd.userId, cmd.exerciseId))
      case Some(i) =>
        assert r.1.assignments == s.assignments[i := row];
      case None =>
        assert r.1.assignments == s.assignments + [row];
    }
  }

  /** Remove keeps the store's invariant and its referential integrity. */
  lemma RemoveKeepsInvariants(s: State, userId: Guid, exerciseId: Guid)
    ensures Valid(s) ==> Valid(RemoveExerciseFromUser(s, userId, exerciseId).1)
    ensures RefIntegrity(s) ==> RefIntegrity(RemoveExerciseFromUser(s, userId, exerciseId).1)
  {
    if Valid(s) {
      RemoveClearsPair(s, userId, exerciseId);
    }
    if RefIntegrity(s) {
      var q := RemoveExerciseFromUser(s, userId, exerciseId);
      match FindFirst(s.assignments, PairIs(userId, exerciseId))
      case None =>
      case Some(i) =>
        var rows' := s.assignments[..i] + s.assignments[i + 1..];
        assert q.1.assignments == rows';
        forall k | 0 <= k < |rows'|
          ensures rows'[k].userId in s.users && rows'[k].exerciseId in s.exercises
        {
          assert rows'[k] == s.assignments[if k < i then k else k + 1];
        }
    }
  }

  /** After an exercise is deleted nobody is listed against it any more. */
  lemma DeletedExerciseHasNoUsers(s: State, id: Guid)
    ensures var r := ExerciseHandlers.DeleteExercise(s, id);
            r.0 ==> GetExerciseUsers(r.1, id) == []
  {
    var r := ExerciseHandlers.DeleteExercise(s, id);
    if r.0 {
      forall k | 0 <= k < |r.1.assignments|
        ensures r.1.assignments[k].exerciseId != id
      {
        assert r.1.assignments[k] in r.1.assignments;
      }
    }
  }

  /** After a user is deleted their exercise list is empty. */
  lemma DeletedUserHasNoExercises(s: State, userId: Guid)
    ensures var r := UserHandlers.DeleteUser(s, userId);
            r.0 ==> GetUserExercises(r.1, userId) == []
  {
    var r := UserHandlers.DeleteUser(s, userId);
    if r.0 {
      forall k | 0 <= k < |r.1.assignments|
        ensures r.1.assignments[k].userId != userId
      {
        assert r.1.assignments[k] in r.1.assignments;
      }
    }
  }
}
