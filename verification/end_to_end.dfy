/** Properties that cross the wire: what the browser's requests meet on the
    server, and what the browser makes of the server's answers. */
module EndToEnd {
  import opened Wrappers
  import opened Json
  import opened Seqs
  import opened Entities
  import opened Store
  import opened Identity
  import opened Login
  import opened Routing
  import opened Assignments
  import LoginForm
  import SignUpForm
  import AssignmentPages
  import UserHandlers

  // ---------------------------------------------------------------------
  // Logging in

  /** The login form posts the typed email as the user name, so an account
      created by the role-aware sign-up (user name and email both the
      request's email) is found by typing that email; when no earlier account
      carries that e-mail, the account found is the one just created. */
  lemma LoginFormFindsSignedUpAccount(s: State, policy: IdentityPolicy, cmd: CreateUserWithRoleCommand,
                                      userId: NewGuid, principalId: NewGuid, password: string)
    requires cmd.email != "" && password != ""
    ensures var r := CreateUserWithRole(s, policy, cmd, userId, principalId);
            var sent := LoginForm.Submit(LoginForm.Form(cmd.email, password, None)).1;
            r.0.Ok? ==> sent.Some? && LookupAccount(r.1, sent.value.username).Some?
    ensures var r := CreateUserWithRole(s, policy, cmd, userId, principalId);
            (forall k | 0 <= k < |s.principals| :: s.principals[k].email != Some(cmd.email)) && r.0.Ok? ==>
              LookupAccount(r.1, cmd.email).value.id == principalId
  {
    var r := CreateUserWithRole(s, policy, cmd, userId, principalId);
    if r.0.Ok? {
      var n := |s.principals|;
      var created := r.1.principals[n];
      assert created.email == Some(cmd.email);
      if forall k | 0 <= k < |s.principals| :: s.principals[k].email != Some(cmd.email) {
        var found := FindByEmail(r.1, cmd.email).value;
        var j :| 0 <= j < |r.1.principals| && r.1.principals[j] == found;
        assert found == created;
      }
    }
  }

  /** The role the browser shows after a login, read from the payload the
      server wrote: the account's first role, or 'User' for an account with
      no role or whose only role is the empty string. */
  lemma UiRoleOfIssuedToken(s: State, policy: IdentityPolicy, settings: JwtSettings, req: LoginRequest,
                            jti: NewGuid, now: Time)
    ensures var r := LoginHandler(s, policy, settings, req, jti, now);
            r.Issued? ==>
              var roles := LookupAccount(s, req.username).value.roles;
              LoginForm.RoleFromPayload(JsObject(PayloadOf(r.token)))
              == JsString(if roles == [] || roles == [""] then LoginForm.FallbackRole else roles[0])
  {
    var r := LoginHandler(s, policy, settings, req, jti, now);
    if r.Issued? {
      IssuedRoleProperty(s, policy, settings, req, jti, now);
      RoleOfSerialisedRoles(PayloadOf(r.token), LookupAccount(s, req.username).value.roles);
    }
  }

  /** What the browser reads from a payload whose role property was written
      from `roles` by the token writer. */
  lemma RoleOfSerialisedRoles(fields: map<string, JsValue>, roles: seq<string>)
    requires Property(fields, RoleClaimType) == if roles == [] then JsUndefined else ClaimJson(roles)
    ensures LoginForm.RoleFromPayload(JsObject(fields))
            == JsString(if roles == [] || roles == [""] then LoginForm.FallbackRole else roles[0])
  {
    if |roles| > 1 {
      assert ClaimJson(roles).items[0] == JsString(roles[0]);
    }
  }

  /** The same through the token text: when its second segment decodes to
      the payload, the context is given the account's first role, and an
      Admin or Trainer account gets the edit controls. */
  lemma LoginGrantsControls(s: State, policy: IdentityPolicy, settings: JwtSettings, req: LoginRequest,
                            jti: NewGuid, now: Time, text: string, decode: LoginForm.Decoder)
    requires var r := LoginHandler(s, policy, settings, req, jti, now);
             var part := LoginForm.Segment(LoginForm.Split(text, '.'), 1);
             r.Issued? && part.Some? && decode(LoginForm.ToStandardAlphabet(part.value)) == Some(JsObject(PayloadOf(r.token)))
    ensures var roles := LookupAccount(s, req.username).value.roles;
            var role := LoginForm.RoleFromToken(text, decode);
            && (roles != [] && roles[0] != "" ==> role == JsString(roles[0]))
            && (AssignmentPages.CanManage(role) <==> roles != [] && roles[0] in {AdminRole, TrainerRole})
  {
    UiRoleOfIssuedToken(s, policy, settings, req, jti, now);
  }

  // ---------------------------------------------------------------------
  // Signing up

  /** POST /users binds the sign-up body to the plain create command; the
      unknown `isTrainer` property is dropped. */
  function BindSignUp(body: SignUpForm.SignUpBody): (r: UserHandlers.CreateUserCommand)
    ensures r.name == body.name && r.email == body.email && r.password == body.password
  {
    UserHandlers.CreateUserCommand(body.name, body.email, body.password)
  }

  /** A sign-up through the browser answers the same whichever box was
      ticked, and creates no login account: the identity store is untouched,
      so every login lookup answers as before. */
  lemma SignUpIgnoresTrainerAndCreatesNoLogin(s: State, env: Env, bearer: Option<Token>, f: SignUpForm.Form)
    requires SignUpForm.Submit(f).1.Some?
    ensures var body := SignUpForm.Submit(f).1.value;
            var post := Dispatch(s, env, bearer, PostUser(BindSignUp(body)));
            && post == Dispatch(s, env, bearer, PostUser(BindSignUp(body.(isTrainer := !body.isTrainer))))
            && post.1.principals == s.principals
            && forall name: string :: LookupAccount(post.1, name) == LookupAccount(s, name)
  {
    var body := SignUpForm.Submit(f).1.value;
    assert BindSignUp(body) == BindSignUp(body.(isTrainer := !body.isTrainer));
    var post := Dispatch(s, env, bearer, PostUser(BindSignUp(body)));
    forall name: string
      ensures LookupAccount(post.1, name) == LookupAccount(s, name)
    {
      assert FindByEmail(post.1, name) == FindByEmail(s, name);
      assert FindByName(post.1, name) == FindByName(s, name);
    }
  }

  // ---------------------------------------------------------------------
  // Removing an assignment

  lemma {:induction false} ExercisesOfRowsConcat(a: seq<Assignment>, b: seq<Assignment>,
                                                 exercises: map<Guid, Exercise>, userId: Guid)
    ensures ExercisesOfRows(a + b, exercises, userId) == ExercisesOfRows(a, exercises, userId) + ExercisesOfRows(b, exercises, userId)
    decreases |a|
  {
    if |a| == 0 {
      assert a + b == b;
    } else {
      assert (a + b)[0] == a[0];
      assert (a + b)[1..] == a[1..] + b;
      ExercisesOfRowsConcat(a[1..], b, exercises, userId);
    }
  }

  /** Without a row for the pair, the projection holds no entry with that
      exercise id, so the local filter keeps it whole. */
  lemma ProjectionWithoutPair(rows: seq<Assignment>, exercises: map<Guid, Exercise>, userId: Guid, exerciseId: Guid)
    requires ExercisesKeyed(exercises)
    requires forall k | 0 <= k < |rows| :: !PairIs(userId, exerciseId)(rows[k])
    ensures AssignmentPages.RemoveLocal(ExercisesOfRows(rows, exercises, userId), exerciseId)
            == ExercisesOfRows(rows, exercises, userId)
  {
    var xs := ExercisesOfRows(rows, exercises, userId);
    ExercisesOfRowsMembers(rows, exercises, userId);
    forall j | 0 <= j < |xs|
      ensures xs[j].id != exerciseId
    {
      assert xs[j] in xs;
      var k :| 0 <= k < |rows| && rows[k].userId == userId && rows[k].exerciseId in exercises
               && exercises[rows[k].exerciseId] == xs[j];
    }
    FilterKeepsAll(xs, (e: Exercise) => e.id != exerciseId);
  }

  /** The projection of the single removed row is dropped by the filter. */
  lemma ProjectionOfPair(row: Assignment, exercises: map<Guid, Exercise>, userId: Guid, exerciseId: Guid)
    requires ExercisesKeyed(exercises) && PairIs(userId, exerciseId)(row)
    ensures AssignmentPages.RemoveLocal(ExercisesOfRows([row], exercises, userId), exerciseId) == []
  {
    assert [row][1..] == [];
    var xs := ExercisesOfRows([row], exercises, userId);
    assert xs == (if exerciseId in exercises then [exercises[exerciseId]] else []);
    FilterMembers(xs, (e: Exercise) => e.id != exerciseId);
  }

  /** On a consistent store, dropping the entry locally gives exactly the
      list the server would answer after RemoveExerciseFromUser, so the
      component's shortcut agrees with a refetch. */
  lemma LocalRemovalMatchesServer(s: State, userId: Guid, exerciseId: Guid)
    requires Valid(s)
    ensures var r := RemoveExerciseFromUser(s, userId, exerciseId);
            r.0 ==> GetUserExercises(r.1, userId)
                    == AssignmentPages.RemoveLocal(GetUserExercises(s, userId), exerciseId)
  {
    assert ExercisesKeyed(s.exercises) && UniquePairs(s.assignments);
    RemovalOnKeyedRows(s, userId, exerciseId);
  }

  lemma RemovalOnKeyedRows(s: State, userId: Guid, exerciseId: Guid)
    requires ExercisesKeyed(s.exercises) && UniquePairs(s.assignments)
    ensures var r := RemoveExerciseFromUser(s, userId, exerciseId);
            r.0 ==> GetUserExercises(r.1, userId)
                    == AssignmentPages.RemoveLocal(GetUserExercises(s, userId), exerciseId)
  {
    var rows := s.assignments;
    var r := RemoveExerciseFromUser(s, userId, exerciseId);
    if r.0 {
      var i :| FindFirst(rows, PairIs(userId, exerciseId)) == Some(i);
      var before, after := rows[..i], rows[i + 1..];
      assert r.1.assignments == before + after;
      assert rows == before + ([rows[i]] + after) by {
        SplitJoin(rows, i);
        SuffixParts(rows, i);
        assert rows[i..] == [rows[i]] + after;
      }
      forall k | 0 <= k < |before|
        ensures !PairIs(userId, exerciseId)(before[k])
      {
        assert before[k] == rows[k];
      }
      forall k | 0 <= k < |after|
        ensures !PairIs(userId, exerciseId)(after[k])
      {
        assert after[k] == rows[i + 1 + k];
        assert !SamePair(rows[i], rows[i + 1 + k]);
      }
      ProjectionWithoutPair(before, s.exercises, userId, exerciseId);
      ProjectionWithoutPair(after, s.exercises, userId, exerciseId);
      ProjectionOfPair(rows[i], s.exercises, userId, exerciseId);
      RemoveAfterConcat(before, rows[i], after, s.exercises, userId, exerciseId);
    }
  }

  /** The list algebra behind LocalRemovalMatchesServer, kept apart from
      the store. */
  lemma RemoveAfterConcat(before: seq<Assignment>, row: Assignment, after: seq<Assignment>,
                          exercises: map<Guid, Exercise>, userId: Guid, exerciseId: Guid)
    requires var pre := ExercisesOfRows(before, exercises, userId);
             AssignmentPages.RemoveLocal(pre, exerciseId) == pre
    requires var post := ExercisesOfRows(after, exercises, userId);
             AssignmentPages.RemoveLocal(post, exerciseId) == post
    requires AssignmentPages.RemoveLocal(ExercisesOfRows([row], exercises, userId), exerciseId) == []
    ensures AssignmentPages.RemoveLocal(ExercisesOfRows(before + ([row] + after), exercises, userId), exerciseId)
            == ExercisesOfRows(before + after, exercises, userId)
  {
    var pre := ExercisesOfRows(before, exercises, userId);
    var mid := ExercisesOfRows([row], exercises, userId);
    var post := ExercisesOfRows(after, exercises, userId);
    ExercisesOfRowsConcat([row], after, exercises, userId);
    ExercisesOfRowsConcat(before, [row] + after, exercises, userId);
    ExercisesOfRowsConcat(before, after, exercises, userId);
    AssignmentPages.RemoveLocalShape(mid, post, exerciseId);
    AssignmentPages.RemoveLocalShape(pre, mid + post, exerciseId);
    assert [] + post == post;
  }

  /** The browser addresses a user's exercises as /users/{userId}/exercises
      (list) and /users/{userId}/exercises/{exerciseId} (assign and remove).
      No template has three or four segments, so all three calls are
      answered 404 and change nothing on the server, whatever the ids. */
  lemma BrowserAssignmentCallsMissRoutes(s: State, env: Env, bearer: Option<Token>, userId: string, exerciseId: string)
    ensures var r := Dispatch(s, env, bearer, Unmapped(GET, ["users", userId, "exercises"]));
            Status(r.0) == 404 && r.1 == s
    ensures var r := Dispatch(s, env, bearer, Unmapped(POST, ["users", userId, "exercises", exerciseId]));
            Status(r.0) == 404 && r.1 == s
    ensures var r := Dispatch(s, env, bearer, Unmapped(DELETE, ["users", userId, "exercises", exerciseId]));
            Status(r.0) == 404 && r.1 == s
  {
    DispatchUnmapped(s, env, bearer, GET, ["users", userId, "exercises"]);
    DispatchUnmapped(s, env, bearer, POST, ["users", userId, "exercises", exerciseId]);
    DispatchUnmapped(s, env, bearer, DELETE, ["users", userId, "exercises", exerciseId]);
  }

  /** As the route table stands, the browser's removal of a user's exercise
      is refused, so the component keeps its list. */
  lemma BrowserRemovalIsRefused(s: State, env: Env, bearer: Option<Token>, userId: string,
                                list: seq<Exercise>, exerciseId: Guid)
    ensures var r := Dispatch(s, env, bearer, Unmapped(DELETE, ["users", userId, "exercises", GuidText(exerciseId)]));
            && r.1 == s
            && AssignmentPages.ComponentAfterRemove(list, exerciseId, Status(r.0)) == list
  {
    BrowserAssignmentCallsMissRoutes(s, env, bearer, userId, GuidText(exerciseId));
  }
}
