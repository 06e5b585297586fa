/** The identity store as the API uses it: accounts found by name or e-mail,
    account creation, role membership, the sign-up-with-role handler and
    the start-up seeding of the administrator. */
module Identity {
  import opened Wrappers
  import opened Entities
  import opened Store
  import opened Seqs
  import opened Tables

  const AdminRole: string := "Admin"
  const TrainerRole: string := "Trainer"
  const UserRole: string := "User"

  const AdminEmail: string := "admin@fitnesstracker.com"
  const AdminPassword: string := "AdminP@ss123!"

  /** The user-name validator, the password validators, and the password
      hasher with its verifier (stored hash, offered password), as the
      identity framework is configured. */
  datatype IdentityPolicy = IdentityPolicy(
    userNameOk: string -> bool,
    passwordOk: string -> bool,
    hash: string -> string,
    verify: (string, string) -> bool)

  datatype IdentityError =
    | DuplicateUserName
    | InvalidUserName
    | PasswordRejected
    | DuplicateId
    | UserNotFound
    | RoleNotFound
    | AlreadyInRole

  function NameIs(name: string): Principal -> bool {
    (p: Principal) => p.userName == Some(name)
  }

  function EmailIs(email: string): Principal -> bool {
    (p: Principal) => p.email == Some(email)
  }

  function IdIs(id: Guid): Principal -> bool {
    (p: Principal) => p.id == id
  }

  /** FindByNameAsync: the first account with that user name. */
  function FindByName(s: State, name: string): (r: Option<Principal>)
    ensures r.Some? ==> r.value in s.principals && r.value.userName == Some(name)
    ensures r.None? <==> forall k | 0 <= k < |s.principals| :: s.principals[k].userName != Some(name)
  {
    match FindFirst(s.principals, NameIs(name))
    case None => None
    case Some(i) => Some(s.principals[i])
  }

  /** FindByEmailAsync: the first account with that e-mail. */
  function FindByEmail(s: State, email: string): (r: Option<Principal>)
    ensures r.Some? ==> r.value in s.principals && r.value.email == Some(email)
    ensures r.None? <==> forall k | 0 <= k < |s.principals| :: s.principals[k].email != Some(email)
  {
    match FindFirst(s.principals, EmailIs(email))
    case None => None
    case Some(i) => Some(s.principals[i])
  }

  /** UserManager.CreateAsync(user, password). The account is stored with the
      hash of the password and no roles; a user name already taken, one the
      validator refuses, a password the validators refuse, or an id already
      in use makes it fail with the store unchanged. */
  function CreatePrincipal(s: State, policy: IdentityPolicy, id: NewGuid, userName: string, email: string,
                           emailConfirmed: bool, password: string): (r: (Result<Principal, IdentityError>, State))
    ensures r.0.Ok? <==>
              && FindByName(s, userName).None?
              && policy.userNameOk(userName)
              && policy.passwordOk(password)
              && (forall k | 0 <= k < |s.principals| :: s.principals[k].id != id)
    ensures r.0.Err? ==> r.1 == s
    ensures r.0.Ok? ==> r.1 == s.(principals := s.principals + [r.0.value])
    ensures r.0.Ok? ==>
              var p := r.0.value;
              && p.id == id && p.userName == Some(userName) && p.email == Some(email)
              && p.emailConfirmed == emailConfirmed && p.passwordHash == policy.hash(password) && p.roles == []
  {
    if FindByName(s, userName).Some? then (Err(DuplicateUserName), s)
    else if !policy.userNameOk(userName) then (Err(InvalidUserName), s)
    else if !policy.passwordOk(password) then (Err(PasswordRejected), s)
    else if FindFirst(s.principals, IdIs(id)).Some? then (Err(DuplicateId), s)
    else
      var p := Principal(id, Some(userName), Some(email), emailConfirmed, policy.hash(password), []);
      (Ok(p), s.(principals := s.principals + [p]))
  }

  /** UserManager.AddToRoleAsync: the role must exist and the account must
      not hold it already; on success the role is appended to the account's
      roles and nothing else changes. */
  function AddToRole(s: State, id: Guid, role: string): (r: (Result<(), IdentityError>, State))
    ensures r.0.Ok? <==>
              && (exists k | 0 <= k < |s.principals| :: s.principals[k].id == id)
              && role in s.roleNames
              && role !in s.principals[FindFirst(s.principals, IdIs(id)).value].roles
    ensures r.0.Err? ==> r.1 == s
    ensures r.1 == s.(principals := r.1.principals) && |r.1.principals| == |s.principals|
    ensures r.0.Ok? ==>
              var i := FindFirst(s.principals, IdIs(id)).value;
              && r.1.principals[i] == s.principals[i].(roles := s.principals[i].roles + [role])
              && (forall k | 0 <= k < |s.principals| && k != i :: r.1.principals[k] == s.principals[k])
  {
    match FindFirst(s.principals, IdIs(id))
    case None => (Err(UserNotFound), s)
    case Some(i) =>
      var p := s.principals[i];
      if role !in s.roleNames then (Err(RoleNotFound), s)
      else if role in p.roles then (Err(AlreadyInRole), s)
      else (Ok(()), s.(principals := s.principals[i := p.(roles := p.roles + [role])]))
  }

  /** Adding a role to an account makes it a member, and an immediate second
      add of the same role fails. */
  lemma AddToRoleThenMember(s: State, id: Guid, role: string)
    ensures var r := AddToRole(s, id, role);
            r.0.Ok? ==>
              && FindFirst(r.1.principals, IdIs(id)) == FindFirst(s.principals, IdIs(id))
              && role in r.1.principals[FindFirst(s.principals, IdIs(id)).value].roles
              && AddToRole(r.1, id, role).0 == Err(AlreadyInRole)
  {
    var r := AddToRole(s, id, role);
    if r.0.Ok? {
      var i := FindFirst(s.principals, IdIs(id)).value;
      FindFirstAfterUpdate(s.principals, i, r.1.principals[i], IdIs(id));
      assert r.1.principals[i].roles[|s.principals[i].roles|] == role;
    }
  }

  /** Replacing the first match by another match keeps it the first match. */
  lemma FindFirstAfterUpdate<T>(xs: seq<T>, i: nat, v: T, p: T -> bool)
    requires FindFirst(xs, p) == Some(i) && p(v)
    ensures FindFirst(xs[i := v], p) == Some(i)
  {
    var ys := xs[i := v];
    assert forall k | 0 <= k < i :: ys[k] == xs[k];
    assert ys[i] == v;
  }

  // ---------------------------------------------------------------------
  // Sign-up with a role

  datatype CreateUserWithRoleCommand = CreateUserWithRoleCommand(name: string, email: string, password: string, isTrainer: bool)

  datatype SignUpError =
    | UserRowRejected(store: StoreError)
    | IdentityCreateFailed(identity: IdentityError)
    | RoleAssignFailed(identity: IdentityError)

  /** The step (1 user row, 2 account, 3 role) a sign-up failed at. */
  predicate FailedAt(r: Result<Guid, SignUpError>, step: nat) {
    && r.Err?
    && match r.error
       case UserRowRejected(_) => step == 1
       case IdentityCreateFailed(_) => step == 2
       case RoleAssignFailed(_) => step == 3
  }

  function RoleFor(isTrainer: bool): string {
    if isTrainer then TrainerRole else UserRole
  }

  /** CreateUserWithRoleCommandHandler.Handle. Three steps, each saved on its
      own: the domain user row, the identity account (user name and e-mail
      both the request's e-mail, e-mail confirmed), then the role. A failure
      raises, but whatever the earlier steps saved stays saved. */
  function CreateUserWithRole(s: State, policy: IdentityPolicy, cmd: CreateUserWithRoleCommand,
                              userId: NewGuid, principalId: NewGuid): (r: (Result<Guid, SignUpError>, State))
    ensures r.1.exercises == s.exercises && r.1.assignments == s.assignments && r.1.roleNames == s.roleNames
    ensures r.0.Ok? ==> r.0.value == userId
    ensures FailedAt(r.0, 1) ==> r.1 == s
    ensures !FailedAt(r.0, 1) ==>
              && userId !in s.users && userId in r.1.users
              && r.1.users[userId] == User(userId, cmd.name, cmd.email, cmd.password)
    ensures FailedAt(r.0, 2) ==> r.1.principals == s.principals
    ensures r.0.Ok? || FailedAt(r.0, 3) ==>
              && |r.1.principals| == |s.principals| + 1
              && r.1.principals[..|s.principals|] == s.principals
              && var p := r.1.principals[|s.principals|];
                 && p.id == principalId && p.userName == Some(cmd.email) && p.email == Some(cmd.email)
                 && p.emailConfirmed && p.passwordHash == policy.hash(cmd.password)
                 && p.roles == (if r.0.Ok? then [RoleFor(cmd.isTrainer)] else [])
    ensures !FailedAt(r.0, 1) && !FailedAt(r.0, 2) ==> (r.0.Ok? <==> RoleFor(cmd.isTrainer) in s.roleNames)
  {
    var u := NewUser(userId, cmd.name, cmd.email, cmd.password);
    match AddRow(s.users, userId, u, UserFits(u))
    case Err(e) => (Err(UserRowRejected(e)), s)
    case Ok(users) =>
      var s1 := s.(users := users);
      match CreatePrincipal(s1, policy, principalId, cmd.email, cmd.email, true, cmd.password)
      case (Err(e), _) => (Err(IdentityCreateFailed(e)), s1)
      case (Ok(p), s2) =>
        var n := |s1.principals|;
        assert s2.principals[n] == p;
        assert FindFirst(s2.principals, IdIs(principalId)) == Some(n) by {
          assert forall k | 0 <= k < n :: s2.principals[k] == s1.principals[k];
        }
        match AddToRole(s2, principalId, RoleFor(cmd.isTrainer))
        case (Err(e), _) => (Err(RoleAssignFailed(e)), s2)
        case (Ok(_), s3) =>
          assert s3.principals[..n] == s1.principals by {
            assert forall k | 0 <= k < n :: s3.principals[k] == s1.principals[k];
          }
          (Ok(userId), s3)
  }

  /** The seeding creates only the Admin role, so on a store holding no other
      role the sign-up handler cannot finish: once the user row and the
      account are saved, the role step fails and both stay behind. */
  lemma SignUpNeedsItsRole(s: State, policy: IdentityPolicy, cmd: CreateUserWithRoleCommand,
                           userId: NewGuid, principalId: NewGuid)
    requires s.roleNames == {AdminRole}
    ensures var r := CreateUserWithRole(s, policy, cmd, userId, principalId);
            && r.0.Err?
            && (FailedAt(r.0, 3) ==> userId in r.1.users && |r.1.principals| == |s.principals| + 1)
  {
    var r := CreateUserWithRole(s, policy, cmd, userId, principalId);
    assert RoleFor(cmd.isTrainer) != AdminRole;
  }

  // ---------------------------------------------------------------------
  // Start-up seeding

  /** The admin account the seeding asks for, as CreateAsync would store it. */
  predicate IsSeededAdmin(p: Principal, policy: IdentityPolicy, adminId: Guid) {
    && p.id == adminId && p.userName == Some(AdminEmail) && p.email == Some(AdminEmail)
    && p.emailConfirmed && p.passwordHash == policy.hash(AdminPassword) && p.roles == [AdminRole]
  }

  /** The two ignored-result calls of the seeding: CreateAsync and then
      AddToRoleAsync(.., "Admin"). */
  function CreateAdmin(s: State, policy: IdentityPolicy, adminId: NewGuid): (r: State)
    requires AdminRole in s.roleNames
    ensures r == s.(principals := r.principals)
    ensures r.principals != s.principals <==>
              && FindByName(s, AdminEmail).None?
              && policy.userNameOk(AdminEmail) && policy.passwordOk(AdminPassword)
              && forall k | 0 <= k < |s.principals| :: s.principals[k].id != adminId
    ensures r.principals != s.principals ==>
              && |r.principals| == |s.principals| + 1
              && r.principals[..|s.principals|] == s.principals
              && IsSeededAdmin(r.principals[|s.principals|], policy, adminId)
  {
    var (created, s2) := CreatePrincipal(s, policy, adminId, AdminEmail, AdminEmail, true, AdminPassword);
    if created.Err? then s2
    else
      var n := |s.principals|;
      assert FindFirst(s2.principals, IdIs(adminId)) == Some(n) by {
        assert s2.principals[n] == created.value;
        assert forall k | 0 <= k < n :: s2.principals[k] == s.principals[k];
      }
      var (_, s3) := AddToRole(s2, adminId, AdminRole);
      assert s3.principals[n].roles == [AdminRole];
      assert s3.principals[..n] == s.principals by {
        assert forall k | 0 <= k < n :: s3.principals[k] == s.principals[k];
      }
      s3
  }

  /** SeedData.InitializeAsync. Creates the Admin role if missing; if no
      account is named admin@fitnesstracker.com, creates it with the fixed
      password and adds it to Admin. The results of both identity calls are
      ignored, so a refused account is silently not created. */
  function Seed(s: State, policy: IdentityPolicy, adminId: NewGuid): (r: State)
    ensures r.roleNames == s.roleNames + {AdminRole}
    ensures r.users == s.users && r.exercises == s.exercises && r.assignments == s.assignments
    ensures FindByName(s, AdminEmail).Some? ==> r.principals == s.principals
    ensures r.principals != s.principals <==>
              && FindByName(s, AdminEmail).None?
              && policy.userNameOk(AdminEmail) && policy.passwordOk(AdminPassword)
              && forall k | 0 <= k < |s.principals| :: s.principals[k].id != adminId
    ensures r.principals != s.principals ==>
              && |r.principals| == |s.principals| + 1
              && r.principals[..|s.principals|] == s.principals
              && IsSeededAdmin(r.principals[|s.principals|], policy, adminId)
  {
    var s1 := if AdminRole in s.roleNames then s else s.(roleNames := s.roleNames + {AdminRole});
    if FindByName(s1, AdminEmail).Some? then s1
    else CreateAdmin(s1, policy, adminId)
  }

  /** Running the seeding again changes nothing: the role exists and either
      the administrator was created (and is now found by name) or its
      creation was refused and is refused again for the same reason. */
  lemma SeedIdempotent(s: State, policy: IdentityPolicy, adminId: NewGuid)
    ensures Seed(Seed(s, policy, adminId), policy, adminId) == Seed(s, policy, adminId)
  {
    var s1 := Seed(s, policy, adminId);
    if s1.principals != s.principals {
      var n := |s.principals|;
      assert s1.principals[n].userName == Some(AdminEmail);
    }
    var s2 := Seed(s1, policy, adminId);
    assert s2.principals == s1.principals;
  }

  /** Once an administrator account exists, seeding with any id is a no-op. */
  lemma SeedKeepsExistingAdmin(s: State, policy: IdentityPolicy, adminId: NewGuid)
    requires AdminRole in s.roleNames
    requires FindByName(s, AdminEmail).Some?
    ensures Seed(s, policy, adminId) == s
  {
  }

  // ---------------------------------------------------------------------
  // The identity framework's default validators (no options are configured)

  predicate IsDigit(c: char) { '0' <= c <= '9' }
  predicate IsLower(c: char) { 'a' <= c <= 'z' }
  predicate IsUpper(c: char) { 'A' <= c <= 'Z' }

  /** The default list of user-name characters: ASCII letters and digits
      and "-._@+". */
  predicate UserNameChar(c: char) {
    IsLower(c) || IsUpper(c) || IsDigit(c) || c in "-._@+"
  }

  /** The default user validator: a name that is not empty and uses only
      the allowed characters. */
  predicate DefaultUserNameOk(name: string) {
    |name| > 0 && forall i | 0 <= i < |name| :: UserNameChar(name[i])
  }

  /** Default password rules: at least six characters, with a digit, a
      lower-case letter, an upper-case letter and a character that is none of
      these. */
  predicate DefaultPasswordOk(password: string) {
    && Utf16Length(password) >= 6
    && (exists i | 0 <= i < |password| :: IsDigit(password[i]))
    && (exists i | 0 <= i < |password| :: IsLower(password[i]))
    && (exists i | 0 <= i < |password| :: IsUpper(password[i]))
    && (exists i | 0 <= i < |password| ::
          !IsDigit(password[i]) && !IsLower(password[i]) && !IsUpper(password[i]))
  }

  lemma AdminEmailIsAllowedName()
    ensures DefaultUserNameOk(AdminEmail)
  {
    forall i | 0 <= i < |AdminEmail|
      ensures UserNameChar(AdminEmail[i])
    {
      assert "-._@+"[1] == '.' && "-._@+"[3] == '@';
    }
  }

  lemma AdminPasswordIsAllowed()
    ensures DefaultPasswordOk(AdminPassword)
  {
    Utf16LengthBounds(AdminPassword);
    assert IsDigit(AdminPassword[9]) && IsLower(AdminPassword[1]) && IsUpper(AdminPassword[0]);
    assert !IsDigit(AdminPassword[6]) && !IsLower(AdminPassword[6]) && !IsUpper(AdminPassword[6]);
  }

  /** The seeded credentials pass the default validators, so on a fresh
      store the seeding does create the administrator. */
  lemma SeedCredentialsPassDefaults()
    ensures DefaultUserNameOk(AdminEmail)
    ensures DefaultPasswordOk(AdminPassword)
  {
    AdminEmailIsAllowedName();
    AdminPasswordIsAllowed();
  }

  lemma SeedFreshStore(policy: IdentityPolicy, adminId: NewGuid)
    requires policy.userNameOk(AdminEmail) && policy.passwordOk(AdminPassword)
    ensures var r := Seed(Empty, policy, adminId);
            && r.roleNames == {AdminRole}
            && |r.principals| == 1 && IsSeededAdmin(r.principals[0], policy, adminId)
            && FindByName(r, AdminEmail) == Some(r.principals[0])
  {
    var r := Seed(Empty, policy, adminId);
    assert NameIs(AdminEmail)(r.principals[0]);
  }
}
