/** The domain-user handlers: create, update, delete, get by id and get all.
    These rows are separate from the identity accounts (see Identity). */
module UserHandlers {
  import opened Wrappers
  import opened Entities
  import opened Store
  import opened Tables
  import opened Seqs

  datatype CreateUserCommand = CreateUserCommand(name: string, email: string, password: string)

  /** The update command carries no password: the stored one is kept. */
  datatype UpdateUserCommand = UpdateUserCommand(userId: Guid, name: string, email: string)

  predicate Short(text: string) {
    Utf16Length(text) <= UserFieldMax
  }

  /** CreateUserCommandHandler.Handle. The password is stored as given. */
  function CreateUser(s: State, cmd: CreateUserCommand, newId: NewGuid): (r: (Result<Guid, StoreError>, State))
    ensures r.0.Ok? <==> newId !in s.users && Short(cmd.name) && Short(cmd.email) && Short(cmd.password)
    ensures r.0 == Err(DuplicateKey) <==> newId in s.users
    ensures r.0.Ok? ==> r.0.value == newId && r.0.value != EmptyGuid
    ensures r.0.Ok? ==> r.1.users.Keys == s.users.Keys + {newId}
    ensures r.0.Ok? ==> forall id | id in s.users :: r.1.users[id] == s.users[id]
    ensures r.0.Ok? ==>
              var u := r.1.users[newId];
              u.id == newId && u.name == cmd.name && u.email == cmd.email && u.password == cmd.password
    ensures r.0.Err? ==> r.1 == s
    ensures r.1.exercises == s.exercises && SameExceptTables(s, r.1)
  {
    var u := NewUser(newId, cmd.name, cmd.email, cmd.password);
    match AddRow(s.users, newId, u, UserFits(u))
    case Err(err) => (Err(err), s)
    case Ok(t) => (Ok(newId), s.(users := t))
  }

  /** UpdateUserCommandHandler.Handle: an unknown id returns false; otherwise
      the name and e-mail are overwritten, the password kept. */
  function UpdateUser(s: State, cmd: UpdateUserCommand): (r: (Result<bool, StoreError>, State))
    ensures r.0 == Ok(false) <==> cmd.userId !in s.users
    ensures r.0 == Ok(true) <==>
              cmd.userId in s.users && Short(cmd.name) && Short(cmd.email) && Short(s.users[cmd.userId].password)
    ensures r.0 != Ok(true) ==> r.1 == s
    ensures r.0 == Ok(true) ==>
              && r.1.users.Keys == s.users.Keys
              && (forall id | id in s.users && id != cmd.userId :: r.1.users[id] == s.users[id])
    ensures r.0 == Ok(true) ==>
              var before, after := s.users[cmd.userId], r.1.users[cmd.userId];
              && after.id == before.id && after.password == before.password
              && after.name == cmd.name && after.email == cmd.email
    ensures r.1.exercises == s.exercises && SameExceptTables(s, r.1)
  {
    if cmd.userId !in s.users then (Ok(false), s)
    else
      var u := s.users[cmd.userId].(name := cmd.name, email := cmd.email);
      match ReplaceRow(s.users, cmd.userId, u, UserFits(u))
      case Err(err) => (Err(err), s)
      case Ok(t) => (Ok(true), s.(users := t))
  }

  /** DeleteUserCommandHandler.Handle. The delete cascades to the user's
      association rows; an identity account with the same e-mail stays. */
  function DeleteUser(s: State, userId: Guid): (r: (bool, State))
    ensures r.0 <==> userId in s.users
    ensures !r.0 ==> r.1 == s
    ensures r.1.users.Keys == s.users.Keys - {userId}
    ensures forall k | k in r.1.users :: r.1.users[k] == s.users[k]
    ensures r.0 ==> forall a | a in r.1.assignments :: a in s.assignments && a.userId != userId
    ensures forall a | a in s.assignments && a.userId != userId :: a in r.1.assignments
    ensures r.1.exercises == s.exercises && r.1.principals == s.principals && r.1.roleNames == s.roleNames
  {
    if userId !in s.users then (false, s)
    else
      FilterMembers(s.assignments, NotOfUser(userId));
      (true, s.(users := s.users - {userId}, assignments := Filter(s.assignments, NotOfUser(userId))))
  }

  /** Deleting a user leaves every remaining row pointing at stored rows. */
  lemma DeleteUserKeepsIntegrity(s: State, userId: Guid)
    requires RefIntegrity(s)
    ensures RefIntegrity(DeleteUser(s, userId).1)
  {
    var t := DeleteUser(s, userId).1;
    forall k | 0 <= k < |t.assignments|
      ensures t.assignments[k].userId in t.users && t.assignments[k].exerciseId in t.exercises
    {
      var a := t.assignments[k];
      assert a in t.assignments;
      var j :| 0 <= j < |s.assignments| && s.assignments[j] == a;
    }
  }

  /** GetUserByIdQueryHandler.Handle. */
  function GetUserById(s: State, id: Guid): (r: Option<User>)
    ensures r.Some? ==> r.value in s.users.Values
    ensures TablesWellKeyed(s) ==> (r.Some? ==> r.value.id == id)
    ensures TablesWellKeyed(s) ==> (r.None? <==> forall u | u in s.users.Values :: u.id != id)
  {
    if id in s.users then Some(s.users[id]) else None
  }

  /** GetAllUserQueryHandler.Handle: every stored user once, password
      included. */
  method GetAllUsers(s: State) returns (r: seq<User>)
    ensures |r| == |s.users|
    ensures forall u | u in s.users.Values :: u in r
    ensures forall u | u in r :: u in s.users.Values
    ensures TablesWellKeyed(s) ==> forall i, j | 0 <= i < j < |r| :: r[i].id != r[j].id
  {
    ghost var keys;
    r, keys := Rows(s.users);
  }

  /** A created user is found under the returned id with the command's three
      strings, as the create test checks; other lookups are unaffected. */
  lemma CreateUserThenGet(s: State, cmd: CreateUserCommand, newId: NewGuid)
    ensures var r := CreateUser(s, cmd, newId);
            r.0.Ok? ==> GetUserById(r.1, r.0.value) == Some(User(newId, cmd.name, cmd.email, cmd.password))
    ensures var r := CreateUser(s, cmd, newId);
            forall id | id != newId :: GetUserById(r.1, id) == GetUserById(s, id)
  {
  }

  /** A successful update is visible through the lookup, password unchanged. */
  lemma UpdateUserThenGet(s: State, cmd: UpdateUserCommand)
    ensures var r := UpdateUser(s, cmd);
            r.0 == Ok(true) ==>
              var before := s.users[cmd.userId];
              GetUserById(r.1, cmd.userId) == Some(User(before.id, cmd.name, cmd.email, before.password))
    ensures UpdateUser(s, cmd).0 == Ok(false) <==> GetUserById(s, cmd.userId).None?
    ensures var r := UpdateUser(s, cmd);
            forall id | id != cmd.userId :: GetUserById(r.1, id) == GetUserById(s, id)
  {
  }

  /** After a delete the lookup is empty and a second delete returns false. */
  lemma DeleteUserThenGet(s: State, userId: Guid)
    ensures DeleteUser(s, userId).0 <==> GetUserById(s, userId).Some?
    ensures GetUserById(DeleteUser(s, userId).1, userId).None?
    ensures !DeleteUser(DeleteUser(s, userId).1, userId).0
    ensures forall other | other != userId ::
              GetUserById(DeleteUser(s, userId).1, other) == GetUserById(s, other)
  {
  }

  /** Every user command keeps the store's invariant. */
  lemma UserCommandsKeepValid(s: State, create: CreateUserCommand, newId: NewGuid,
                              update: UpdateUserCommand, userId: Guid)
    requires Valid(s)
    ensures Valid(CreateUser(s, create, newId).1)
    ensures Valid(UpdateUser(s, update).1)
    ensures Valid(DeleteUser(s, userId).1)
  {
    FilterKeepsUniquePairs(s.assignments, NotOfUser(userId));
  }
}
