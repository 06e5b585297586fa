/** The whole persistent state as one immutable value: the two keyed tables,
    the association rows, and the identity store. */
module Store {
  import opened Wrappers
  import opened Entities
  import opened Seqs

  /** `assignments` is the association table, read as a plain sequence of
      rows. The context declares no set for it and configures no key, so
      "one row per (user, exercise)" is only what the handlers maintain (see
      UniquePairs). */
  datatype State = State(
    users: map<Guid, User>,
    exercises: map<Guid, Exercise>,
    assignments: seq<Assignment>,
    principals: seq<Principal>,
    roleNames: set<string>)

  const Empty: State := State(map[], map[], [], [], {})

  predicate SamePair(a: Assignment, b: Assignment) {
    a.userId == b.userId && a.exerciseId == b.exerciseId
  }

  /** At most one row per (UserId, ExerciseId). */
  predicate UniquePairs(rows: seq<Assignment>) {
    forall i, j | 0 <= i < j < |rows| :: !SamePair(rows[i], rows[j])
  }

  /** Each table is keyed by Id, and every stored row fits its columns. */
  predicate TablesWellKeyed(s: State) {
    && (forall id | id in s.users :: s.users[id].id == id && UserFits(s.users[id]))
    && (forall id | id in s.exercises :: s.exercises[id].id == id && ExerciseFits(s.exercises[id]))
  }

  /** The invariant every command preserves. */
  predicate Valid(s: State) {
    TablesWellKeyed(s) && UniquePairs(s.assignments)
  }

  /** Every association row names a stored user and a stored exercise. Both
      foreign keys are required, so deleting a user or an exercise cascades
      to its rows and keeps this true. */
  predicate RefIntegrity(s: State) {
    forall k | 0 <= k < |s.assignments| ::
      s.assignments[k].userId in s.users && s.assignments[k].exerciseId in s.exercises
  }

  /** The rows a cascading delete of exercise `id` keeps. */
  function NotOfExercise(id: Guid): Assignment -> bool {
    (a: Assignment) => a.exerciseId != id
  }

  /** The rows a cascading delete of user `id` keeps. */
  function NotOfUser(id: Guid): Assignment -> bool {
    (a: Assignment) => a.userId != id
  }

  /** Dropping rows never creates a duplicate pair. */
  lemma {:induction false} FilterKeepsUniquePairs(rows: seq<Assignment>, p: Assignment -> bool)
    requires UniquePairs(rows)
    ensures UniquePairs(Filter(rows, p))
    decreases |rows|
  {
    if |rows| > 0 {
      var tail := rows[1..];
      assert UniquePairs(tail) by {
        forall i, j | 0 <= i < j < |tail|
          ensures !SamePair(tail[i], tail[j])
        {
          assert tail[i] == rows[i + 1] && tail[j] == rows[j + 1];
        }
      }
      FilterKeepsUniquePairs(tail, p);
      if p(rows[0]) {
        var f := Filter(tail, p);
        FilterMembers(tail, p);
        forall x | x in f
          ensures !SamePair(rows[0], x)
        {
          var k :| 0 <= k < |tail| && tail[k] == x;
          assert rows[k + 1] == x;
        }
        var r := [rows[0]] + f;
        forall i, j | 0 <= i < j < |r|
          ensures !SamePair(r[i], r[j])
        {
          assert r[j] == f[j - 1];
          if i > 0 {
            assert r[i] == f[i - 1];
          }
        }
      }
    }
  }

  /** The identity store and the association table are left alone. */
  predicate SameExceptTables(s: State, t: State) {
    t.assignments == s.assignments && t.principals == s.principals && t.roleNames == s.roleNames
  }
}
