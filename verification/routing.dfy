/** The HTTP surface of the API: bearer-token validation, the route table
    with its status codes, and the Admin requirement on deleting a user. */
module Routing {
  import opened Wrappers
  import opened Entities
  import opened Store
  import opened Identity
  import opened Login
  import ExerciseHandlers
  import UserHandlers

  /** The validator's allowance for clock differences (the framework
      default of five minutes). */
  const ClockSkew: int := 300 * TicksPerSecond

  const AllowedRoleForUserDelete: string := "Admin"

  /** The key, issuer and audience the bearer validator is configured with.
      They read the same settings entries as the login endpoint, each with
      its own copy of the default. */
  function ValidatorKey(settings: JwtSettings): string {
    settings.key.GetOr("your-default-secret-key-that-is-long-enough-for-sha256")
  }
  function ValidIssuer(settings: JwtSettings): string { settings.issuer.GetOr("fitnessTrackerApi") }
  function ValidAudience(settings: JwtSettings): string { settings.audience.GetOr("fitnessTrackerClient") }

  /** Whatever the configuration, tokens the login endpoint signs carry the
      issuer, audience and key the validator expects. */
  lemma ValidatorMatchesSigner(settings: JwtSettings)
    ensures ValidatorKey(settings) == SigningKey(settings)
    ensures ValidIssuer(settings) == Issuer(settings)
    ensures ValidAudience(settings) == Audience(settings)
  {
  }

  datatype Caller = Anonymous | Authenticated(name: Option<string>, roles: seq<string>)

  /** The instant the token's `exp` stands for: its expiry truncated to whole
      seconds. */
  function ValidTo(t: Token): Time {
    UnixEpochTicks + EpochSeconds(t.expires) * TicksPerSecond
  }

  /** The expiry the validator reads back is the token's, rounded down to
      a whole second, and never before 1970. */
  lemma ValidToNearExpiry(t: Token)
    ensures t.expires > UnixEpochTicks ==> t.expires - TicksPerSecond < ValidTo(t) <= t.expires
    ensures t.expires <= UnixEpochTicks ==> ValidTo(t) == UnixEpochTicks
  {
  }

  predicate TokenAccepted(t: Token, settings: JwtSettings, now: Time) {
    && t.issuer == ValidIssuer(settings)
    && t.audience == ValidAudience(settings)
    && t.key == ValidatorKey(settings)
    && ValidTo(t) >= now - ClockSkew
  }

  /** The bearer handler: a token is accepted when its issuer, audience and
      signing key match and it has not expired; the caller then carries the
      token's name and role claims. Anything else leaves the caller
      anonymous. */
  function Authenticate(bearer: Option<Token>, settings: JwtSettings, now: Time): (r: Caller)
    ensures r.Authenticated? <==> bearer.Some? && TokenAccepted(bearer.value, settings, now)
    ensures r.Authenticated? ==> r.roles == ValuesOf(bearer.value.claims, RoleClaimType)
  {
    match bearer
    case None => Anonymous
    case Some(t) =>
      if !TokenAccepted(t, settings, now) then Anonymous
      else
        var names := ValuesOf(t.claims, NameClaimType);
        Authenticated(if |names| > 0 then Some(names[0]) else None, ValuesOf(t.claims, RoleClaimType))
  }

  /** A token from the login endpoint is accepted, under the same settings,
      from the moment it is issued until its day is over, and the caller it
      yields holds exactly the account's roles. */
  lemma IssuedTokenAccepted(s: State, policy: IdentityPolicy, settings: JwtSettings, req: LoginRequest,
                            jti: NewGuid, issuedAt: Time, now: Time)
    requires LoginHandler(s, policy, settings, req, jti, issuedAt).Issued?
    requires issuedAt <= now <= issuedAt + TicksPerDay
    ensures var t := LoginHandler(s, policy, settings, req, jti, issuedAt).token;
            Authenticate(Some(t), settings, now)
            == Authenticated(LookupAccount(s, req.username).value.userName,
                             LookupAccount(s, req.username).value.roles)
  {
    var t := LoginHandler(s, policy, settings, req, jti, issuedAt).token;
    IssuedClaims(s, policy, settings, req, jti, issuedAt);
    ValidToNearExpiry(t);
    var account := LookupAccount(s, req.username).value;
    assert ValuesOf(t.claims, NameClaimType) == [account.userName.value] + ValuesOf(t.claims[1..], NameClaimType);
  }

  /** The same token is refused once its expiry, read back no earlier than
      1970, and the skew are behind. */
  lemma ExpiredTokenRefused(t: Token, settings: JwtSettings, now: Time)
    requires now > t.expires + ClockSkew && now > UnixEpochTicks + ClockSkew
    ensures Authenticate(Some(t), settings, now) == Anonymous
  {
    ValidToNearExpiry(t);
  }

  // ---------------------------------------------------------------------
  // Routes

  datatype Request =
    | Health
    | PostExercise(create: ExerciseHandlers.CreateExerciseCommand)
    | GetExercises
    | GetExercise(id: Guid)
    | PutExercise(id: Guid, update: ExerciseHandlers.UpdateExerciseCommand)
    | DeleteExercise(id: Guid)
    | PostUser(createUser: UserHandlers.CreateUserCommand)
    | GetUsers
    | GetUser(id: Guid)
    | PutUser(id: Guid, updateUser: UserHandlers.UpdateUserCommand)
    | DeleteUser(id: Guid)
    | PostLogin(login: LoginRequest)
      /** Any other request, given by its method and its path split into
          segments: a path no template fits (such as the user-exercise paths
          the browser calls, which have handlers but no route), a method a
          fitting template does not take, or an `{id}` or body that does not
          bind. */
    | Unmapped(verb: Method, segments: seq<string>)

  datatype Body =
    | Message(text: string)
    | NewId(id: Guid)
    | OneExercise(exercise: Exercise)
    | Exercises(exercises: set<Exercise>)
    | OneUser(user: User)
    | Users(users: set<User>)
    | TokenIssued(token: Token, expiration: Time)

  datatype Response =
    | Ok200(body: Body)
    | Created201(location: string, body: Body)
    | NoContent204
    | Unauthorized401
    | Forbidden403
    | BadRequest400
    | NotFound404
    | MethodNotAllowed405
    | Error500

  /** What the request sees from outside: the identity and time sources and
      the fresh Guids the handlers draw. */
  datatype Env = Env(policy: IdentityPolicy, settings: JwtSettings, now: Time, newId: NewGuid, jti: NewGuid)

  function Status(r: Response): nat {
    match r
    case Ok200(_) => 200
    case Created201(_, _) => 201
    case NoContent204 => 204
    case Unauthorized401 => 401
    case Forbidden403 => 403
    case BadRequest400 => 400
    case NotFound404 => 404
    case MethodNotAllowed405 => 405
    case Error500 => 500
  }

  /** An HTTP method: the four the table maps, or any other (PATCH, HEAD, ...). */
  datatype Method = GET | POST | PUT | DELETE | Other(name: string)

  /** One segment of a route template: a literal, or the `{id}` parameter. */
  datatype Segment = Literal(text: string) | IdParam

  datatype Template = Template(verb: Method, pattern: seq<Segment>)

  /** The route table's templates, in the order they are mapped. */
  const RouteTemplates: seq<Template> := [
    Template(GET, [Literal("health")]),
    Template(POST, [Literal("exercises")]),
    Template(GET, [Literal("exercises")]),
    Template(GET, [Literal("exercises"), IdParam]),
    Template(PUT, [Literal("exercises"), IdParam]),
    Template(DELETE, [Literal("exercises"), IdParam]),
    Template(POST, [Literal("users")]),
    Template(GET, [Literal("users")]),
    Template(GET, [Literal("users"), IdParam]),
    Template(PUT, [Literal("users"), IdParam]),
    Template(DELETE, [Literal("users"), IdParam]),
    Template(POST, [Literal("login")])
  ]

  /** A path fits a template with as many segments whose literals it repeats;
      a parameter takes any one segment. */
  predicate Fits(pattern: seq<Segment>, segments: seq<string>) {
    && |pattern| == |segments|
    && forall i | 0 <= i < |pattern| :: pattern[i].Literal? ==> pattern[i].text == segments[i]
  }

  predicate PathRouted(segments: seq<string>) {
    exists t | t in RouteTemplates :: Fits(t.pattern, segments)
  }

  predicate VerbRouted(verb: Method, segments: seq<string>) {
    exists t | t in RouteTemplates :: t.verb == verb && Fits(t.pattern, segments)
  }

  /** The methods the table takes on a path, read off the templates by the
      path's shape (see MethodsAtMatchesTable). */
  function MethodsAt(segments: seq<string>): set<Method> {
    if |segments| == 1 then
      var head := segments[0];
      if head == "health" then {GET}
      else if head == "exercises" || head == "users" then {POST, GET}
      else if head == "login" then {POST}
      else {}
    else if |segments| == 2 && (segments[0] == "exercises" || segments[0] == "users") then {GET, PUT, DELETE}
    else {}
  }

  /** What routing answers a request that reaches no handler: 404 when no
      template fits the path, 405 when only templates for other methods do,
      and 400 when an endpoint matched but its `{id}` or body did not bind. */
  function Unrouted(verb: Method, segments: seq<string>): (r: Response)
    ensures r.NotFound404? || r.MethodNotAllowed405? || r.BadRequest400?
  {
    var methods := MethodsAt(segments);
    if methods == {} then NotFound404
    else if verb !in methods then MethodNotAllowed405
    else BadRequest400
  }

  /** The method and path segments a typed request is sent with. */
  function Target(req: Request): (Method, seq<string>) {
    match req
    case Health => (GET, ["health"])
    case PostExercise(_) => (POST, ["exercises"])
    case GetExercises => (GET, ["exercises"])
    case GetExercise(id) => (GET, ["exercises", GuidText(id)])
    case PutExercise(id, _) => (PUT, ["exercises", GuidText(id)])
    case DeleteExercise(id) => (DELETE, ["exercises", GuidText(id)])
    case PostUser(_) => (POST, ["users"])
    case GetUsers => (GET, ["users"])
    case GetUser(id) => (GET, ["users", GuidText(id)])
    case PutUser(id, _) => (PUT, ["users", GuidText(id)])
    case DeleteUser(id) => (DELETE, ["users", GuidText(id)])
    case PostLogin(_) => (POST, ["login"])
    case Unmapped(verb, segments) => (verb, segments)
  }

  predicate ExerciseRequest(req: Request) {
    req.PostExercise? || req.GetExercises? || req.GetExercise? || req.PutExercise? || req.DeleteExercise?
  }

  predicate OpenUserRequest(req: Request) {
    req.PostUser? || req.GetUsers? || req.GetUser? || req.PutUser?
  }

  /** The /exercises routes. A store failure surfaces as the global 500;
      the id in a PUT path replaces the one in the body. */
  function ExerciseRoute(s: State, env: Env, req: Request): (r: (Response, State))
    requires ExerciseRequest(req)
    ensures !r.0.Unauthorized401? && !r.0.Forbidden403?
    ensures r.0.Error500? ==> r.1 == s
    ensures req.GetExercises? || req.GetExercise? ==> r.1 == s
    ensures r.1.users == s.users && r.1.principals == s.principals
  {
    match req
    case PostExercise(cmd) =>
      (match ExerciseHandlers.CreateExercise(s, cmd, env.newId, env.now)
       case (Err(_), _) => (Error500, s)
       case (Ok(id), s') => (Created201("/exercises/" + GuidText(id), NewId(id)), s'))
    case GetExercises => (Ok200(Exercises(s.exercises.Values)), s)
    case GetExercise(id) =>
      (match ExerciseHandlers.GetExerciseById(s, id)
       case Some(e) => (Ok200(OneExercise(e)), s)
       case None => (NotFound404, s))
    case PutExercise(id, body) =>
      (match ExerciseHandlers.UpdateExercise(s, body.(id := id))
       case (Err(_), _) => (Error500, s)
       case (Ok(true), s') => (NoContent204, s')
       case (Ok(false), s') => (NotFound404, s'))
    case DeleteExercise(id) =>
      var (found, s') := ExerciseHandlers.DeleteExercise(s, id);
      (if found then NoContent204 else NotFound404, s')
  }

  /** The /users routes open to anyone: create, list, read and update. */
  function OpenUserRoute(s: State, env: Env, req: Request): (r: (Response, State))
    requires OpenUserRequest(req)
    ensures !r.0.Unauthorized401? && !r.0.Forbidden403?
    ensures r.0.Error500? ==> r.1 == s
    ensures req.GetUsers? || req.GetUser? ==> r.1 == s
    ensures r.1.users.Keys >= s.users.Keys && r.1.principals == s.principals
  {
    match req
    case PostUser(cmd) =>
      (match UserHandlers.CreateUser(s, cmd, env.newId)
       case (Err(_), _) => (Error500, s)
       case (Ok(id), s') => (Created201("/users/" + GuidText(id), NewId(id)), s'))
    case GetUsers => (Ok200(Users(s.users.Values)), s)
    case GetUser(id) =>
      (match UserHandlers.GetUserById(s, id)
       case Some(u) => (Ok200(OneUser(u)), s)
       case None => (NotFound404, s))
    case PutUser(id, body) =>
      (match UserHandlers.UpdateUser(s, body.(userId := id))
       case (Err(_), _) => (Error500, s)
       case (Ok(true), s') => (NoContent204, s')
       case (Ok(false), s') => (NotFound404, s'))
  }

  /** DELETE /users/{id}: 401 without an accepted token, 403 for a caller
      without Admin, and only then the handler. */
  function DeleteUserRoute(s: State, env: Env, bearer: Option<Token>, id: Guid): (r: (Response, State))
    ensures r.0.Unauthorized401? <==> Authenticate(bearer, env.settings, env.now).Anonymous?
    ensures r.0.Forbidden403? <==>
              var caller := Authenticate(bearer, env.settings, env.now);
              caller.Authenticated? && AllowedRoleForUserDelete !in caller.roles
    ensures !r.0.Error500? && r.1.principals == s.principals
    ensures !(r.1.users.Keys >= s.users.Keys) ==>
              var caller := Authenticate(bearer, env.settings, env.now);
              caller.Authenticated? && AllowedRoleForUserDelete in caller.roles
  {
    match Authenticate(bearer, env.settings, env.now)
    case Anonymous => (Unauthorized401, s)
    case Authenticated(_, roles) =>
      if AllowedRoleForUserDelete !in roles then (Forbidden403, s)
      else
        var (found, s') := UserHandlers.DeleteUser(s, id);
        (if found then NoContent204 else NotFound404, s')
  }

  /** POST /login: the handler's three outcomes as 200, 401 and 500. */
  function LoginRoute(s: State, env: Env, login: LoginRequest): (r: Response)
    ensures r.Unauthorized401? <==> LoginHandler(s, env.policy, env.settings, login, env.jti, env.now).Unauthorized?
    ensures r.Error500? <==> LoginHandler(s, env.policy, env.settings, login, env.jti, env.now).Problem?
    ensures !r.Forbidden403?
  {
    match LoginHandler(s, env.policy, env.settings, login, env.jti, env.now)
    case Issued(t, expiry) => Ok200(TokenIssued(t, expiry))
    case Unauthorized => Unauthorized401
    case Problem => Error500
  }

  /** A DELETE on /users/{id} whose id does not bind. The template has no
      Guid constraint, so routing still selects the user-delete endpoint and
      its Admin policy runs before the binding fails. */
  predicate GatedUnbound(verb: Method, segments: seq<string>) {
    verb == DELETE && |segments| == 2 && segments[0] == "users"
  }

  /** A request that meets the user-delete endpoint, and so its Admin gate. */
  predicate UserDeleteRequest(req: Request) {
    req.DeleteUser? || (req.Unmapped? && GatedUnbound(req.verb, req.segments))
  }

  /** A request that reaches no handler: the user-delete endpoint's gate
      first, where it applies, and then routing's answer. */
  function UnmappedRoute(s: State, env: Env, bearer: Option<Token>, verb: Method, segments: seq<string>): (r: (Response, State))
    ensures r.1 == s && Status(r.0) in {400, 401, 403, 404, 405}
    ensures Status(r.0) == 401 <==>
              GatedUnbound(verb, segments) && Authenticate(bearer, env.settings, env.now).Anonymous?
    ensures Status(r.0) == 403 <==>
              && GatedUnbound(verb, segments)
              && var caller := Authenticate(bearer, env.settings, env.now);
                 caller.Authenticated? && AllowedRoleForUserDelete !in caller.roles
    ensures !(Status(r.0) in {401, 403}) ==> r.0 == Unrouted(verb, segments)
  {
    if !GatedUnbound(verb, segments) then (Unrouted(verb, segments), s)
    else
      match Authenticate(bearer, env.settings, env.now)
      case Anonymous => (Unauthorized401, s)
      case Authenticated(_, roles) =>
        if AllowedRoleForUserDelete !in roles then (Forbidden403, s)
        else (Unrouted(verb, segments), s)
  }

  /** The route table. Only the user-delete endpoint requires a caller, who
      must hold Admin; that gate also answers a DELETE on /users/{id} whose id
      does not bind. Any other request that reaches no handler is answered
      by routing alone, and none of them changes anything. */
  function Dispatch(s: State, env: Env, bearer: Option<Token>, req: Request): (r: (Response, State))
    ensures Status(r.0) == 401 <==>
              || (UserDeleteRequest(req) && Authenticate(bearer, env.settings, env.now).Anonymous?)
              || (req.PostLogin? && LoginHandler(s, env.policy, env.settings, req.login, env.jti, env.now).Unauthorized?)
    ensures Status(r.0) == 403 <==>
              && UserDeleteRequest(req)
              && var caller := Authenticate(bearer, env.settings, env.now);
                 caller.Authenticated? && AllowedRoleForUserDelete !in caller.roles
    ensures r.0.Error500? ==> r.1 == s
    ensures req.GetExercises? || req.GetExercise? || req.GetUsers? || req.GetUser? || req.Health? || req.PostLogin? ==>
              r.1 == s
    ensures req.PostUser? ==> r.1.principals == s.principals
    ensures req.Unmapped? ==> r.1 == s && Status(r.0) in {400, 401, 403, 404, 405}
  {
    if ExerciseRequest(req) then ExerciseRoute(s, env, req)
    else if OpenUserRequest(req) then OpenUserRoute(s, env, req)
    else if req.Unmapped? then UnmappedRoute(s, env, bearer, req.verb, req.segments)
    else
      match req
      case DeleteUser(id) => DeleteUserRoute(s, env, bearer, id)
      case PostLogin(login) => (LoginRoute(s, env, login), s)
      case Health => (Ok200(Message("API is running")), s)
  }

  /** A user row is removed only by a caller holding Admin, and every other
      request leaves the users table alone or only adds or edits rows. */
  lemma OnlyAdminsDeleteUsers(s: State, env: Env, bearer: Option<Token>, req: Request)
    ensures var r := Dispatch(s, env, bearer, req);
            !(r.1.users.Keys >= s.users.Keys) ==>
              && req.DeleteUser?
              && var caller := Authenticate(bearer, env.settings, env.now);
                 caller.Authenticated? && AllowedRoleForUserDelete in caller.roles
  {
  }

  /** Every other route is open: the bearer token has no effect on them. */
  lemma OpenRoutesIgnoreBearer(s: State, env: Env, a: Option<Token>, b: Option<Token>, req: Request)
    requires !UserDeleteRequest(req)
    ensures Dispatch(s, env, a, req) == Dispatch(s, env, b, req)
  {
  }

  /** PUT takes the id from the path, whatever the body says. */
  lemma PutUsesPathId(s: State, env: Env, bearer: Option<Token>, id: Guid,
                      a: ExerciseHandlers.UpdateExerciseCommand, b: ExerciseHandlers.UpdateExerciseCommand)
    requires a.name == b.name && a.description == b.description && a.targetMuscleGroup == b.targetMuscleGroup
    ensures Dispatch(s, env, bearer, PutExercise(id, a)) == Dispatch(s, env, bearer, PutExercise(id, b))
  {
    assert a.(id := id) == b.(id := id);
  }

  /** The route table keeps the store's invariant. */
  lemma DispatchKeepsValid(s: State, env: Env, bearer: Option<Token>, req: Request)
    requires Valid(s)
    ensures Valid(Dispatch(s, env, bearer, req).1)
  {
    match req
    case PostExercise(cmd) =>
      ExerciseHandlers.ExerciseCommandsKeepValid(s, cmd, env.newId, env.now,
                                                 ExerciseHandlers.UpdateExerciseCommand(0, "", "", ""), 0);
    case PutExercise(id, body) =>
      ExerciseHandlers.ExerciseCommandsKeepValid(s, ExerciseHandlers.CreateExerciseCommand("", "", ""),
                                                 env.newId, env.now, body.(id := id), id);
    case DeleteExercise(id) =>
      ExerciseHandlers.ExerciseCommandsKeepValid(s, ExerciseHandlers.CreateExerciseCommand("", "", ""),
                                                 env.newId, env.now, ExerciseHandlers.UpdateExerciseCommand(0, "", "", ""), id);
    case PostUser(cmd) =>
      UserHandlers.UserCommandsKeepValid(s, cmd, env.newId, UserHandlers.UpdateUserCommand(0, "", ""), 0);
    case PutUser(id, body) =>
      UserHandlers.UserCommandsKeepValid(s, UserHandlers.CreateUserCommand("", "", ""), env.newId, body.(userId := id), id);
    case DeleteUser(id) =>
      UserHandlers.UserCommandsKeepValid(s, UserHandlers.CreateUserCommand("", "", ""), env.newId,
                                         UserHandlers.UpdateUserCommand(0, "", ""), id);
    case _ =>
  }

  /** Every typed request is sent with a method and path that a template of
      the table takes, so the typed requests are the table's endpoints. */
  lemma TypedRequestsHaveTemplates(req: Request)
    requires !req.Unmapped?
    ensures VerbRouted(Target(req).0, Target(req).1)
  {
    TargetInMethodsAt(req);
    MethodsAtMatchesTable(Target(req).0, Target(req).1);
  }

  lemma TargetInMethodsAt(req: Request)
    requires !req.Unmapped?
    ensures Target(req).0 in MethodsAt(Target(req).1)
  {
    match req {
      case GetExercise(id) => IdPathMethods("exercises", GuidText(id));
      case PutExercise(id, _) => IdPathMethods("exercises", GuidText(id));
      case DeleteExercise(id) => IdPathMethods("exercises", GuidText(id));
      case GetUser(id) => IdPathMethods("users", GuidText(id));
      case PutUser(id, _) => IdPathMethods("users", GuidText(id));
      case DeleteUser(id) => IdPathMethods("users", GuidText(id));
      case _ => CollectionPathMethods();
    }
  }

  lemma CollectionPathMethods()
    ensures MethodsAt(["health"]) == {GET}
    ensures MethodsAt(["exercises"]) == {POST, GET} && MethodsAt(["users"]) == {POST, GET}
    ensures MethodsAt(["login"]) == {POST}
  {
    assert ["login"][0] != "users" by { assert "login"[0] != "users"[0]; }
  }

  lemma IdPathMethods(head: string, x: string)
    requires head == "exercises" || head == "users"
    ensures MethodsAt([head, x]) == {GET, PUT, DELETE}
  {
  }

  /** A request that reaches no handler is a 404 exactly when no template
      fits its path, and a 405 exactly when only other methods' templates do. */
  lemma UnmappedAnsweredByTemplates(s: State, env: Env, bearer: Option<Token>, verb: Method, segments: seq<string>)
    ensures var r := Dispatch(s, env, bearer, Unmapped(verb, segments));
            && (Status(r.0) == 404 <==> !PathRouted(segments))
            && (Status(r.0) == 405 <==> PathRouted(segments) && !VerbRouted(verb, segments))
            && r.1 == s
  {
    DispatchUnmapped(s, env, bearer, verb, segments);
    UnroutedByTemplates(verb, segments);
  }

  lemma DispatchUnmapped(s: State, env: Env, bearer: Option<Token>, verb: Method, segments: seq<string>)
    ensures Dispatch(s, env, bearer, Unmapped(verb, segments)) == UnmappedRoute(s, env, bearer, verb, segments)
    ensures !GatedUnbound(verb, segments) ==> Dispatch(s, env, bearer, Unmapped(verb, segments)) == (Unrouted(verb, segments), s)
  {
  }

  /** A DELETE on /users/{x} that does not bind meets the Admin gate: 401
      without an accepted bearer, 403 for a caller without Admin, and only
      an Admin caller sees the binding's 400. Nothing changes. */
  lemma UnboundUserDeleteIsGated(s: State, env: Env, bearer: Option<Token>, x: string)
    ensures var r := Dispatch(s, env, bearer, Unmapped(DELETE, ["users", x]));
            var caller := Authenticate(bearer, env.settings, env.now);
            && (Status(r.0) == 401 <==> caller.Anonymous?)
            && (Status(r.0) == 403 <==> caller.Authenticated? && AllowedRoleForUserDelete !in caller.roles)
            && (Status(r.0) == 400 <==> caller.Authenticated? && AllowedRoleForUserDelete in caller.roles)
            && r.1 == s
  {
    DispatchUnmapped(s, env, bearer, DELETE, ["users", x]);
    assert Unrouted(DELETE, ["users", x]) == BadRequest400;
  }

  lemma UnroutedByTemplates(verb: Method, segments: seq<string>)
    ensures Status(Unrouted(verb, segments)) == 404 <==> !PathRouted(segments)
    ensures Status(Unrouted(verb, segments)) == 405 <==> PathRouted(segments) && !VerbRouted(verb, segments)
  {
    MethodsAtMatchesTable(verb, segments);
  }

  /** The shape summary agrees with the template table, both ways. */
  lemma MethodsAtMatchesTable(verb: Method, segments: seq<string>)
    ensures verb in MethodsAt(segments) <==> VerbRouted(verb, segments)
    ensures MethodsAt(segments) != {} <==> PathRouted(segments)
  {
    if verb in MethodsAt(segments) {
      var k := TemplateFor(verb, segments);
      assert RouteTemplates[k] in RouteTemplates;
    }
    if MethodsAt(segments) != {} {
      var m :| m in MethodsAt(segments);
      var k := TemplateFor(m, segments);
      assert RouteTemplates[k] in RouteTemplates;
    }
    if PathRouted(segments) {
      var t :| t in RouteTemplates && Fits(t.pattern, segments);
      TableWithinMethodsAt(t, segments);
    }
    if VerbRouted(verb, segments) {
      var t :| t in RouteTemplates && t.verb == verb && Fits(t.pattern, segments);
      TableWithinMethodsAt(t, segments);
    }
  }

  /** The index of a template taking `verb` on the path. */
  function TemplateFor(verb: Method, segments: seq<string>): (k: nat)
    requires verb in MethodsAt(segments)
    ensures k < |RouteTemplates| && RouteTemplates[k].verb == verb && Fits(RouteTemplates[k].pattern, segments)
  {
    if |segments| == 1 then
      var head := segments[0];
      if head == "health" then 0
      else if head == "exercises" then (if verb == POST then 1 else 2)
      else if head == "users" then (if verb == POST then 6 else 7)
      else 11
    else if segments[0] == "exercises" then (if verb == GET then 3 else if verb == PUT then 4 else 5)
    else if verb == GET then 8 else if verb == PUT then 9 else 10
  }

  /** Every template that fits a path takes a method of the summary. */
  lemma TableWithinMethodsAt(t: Template, segments: seq<string>)
    requires t in RouteTemplates && Fits(t.pattern, segments)
    ensures t.verb in MethodsAt(segments)
  {
    var i :| 0 <= i < |RouteTemplates| && RouteTemplates[i] == t;
    assert t.pattern[0].Literal? && t.pattern[0].text == segments[0];
  }

  /** A known path under a method its templates do not take is a 405, and
      an `{id}` path under a method it does take but with an id that does not
      bind is a 400; neither touches the store. */
  lemma WrongMethodAndBadId(s: State, env: Env, bearer: Option<Token>, id: string)
    ensures var r := Dispatch(s, env, bearer, Unmapped(Other("PATCH"), ["exercises", id]));
            Status(r.0) == 405 && r.1 == s
    ensures var r := Dispatch(s, env, bearer, Unmapped(POST, ["users", id]));
            Status(r.0) == 405 && r.1 == s
    ensures var r := Dispatch(s, env, bearer, Unmapped(GET, ["exercises", id]));
            Status(r.0) == 400 && r.1 == s
  {
    DispatchUnmapped(s, env, bearer, Other("PATCH"), ["exercises", id]);
    DispatchUnmapped(s, env, bearer, POST, ["users", id]);
    DispatchUnmapped(s, env, bearer, GET, ["exercises", id]);
  }
}
