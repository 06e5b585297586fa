# FitnessTracker, modelled in Dafny

FitnessTracker is an exercise-tracking application with two halves.

- An ASP.NET minimal API keeps a catalogue of exercises and a table of users. It links the two through user-exercise rows that carry target sets, target reps and notes. Alongside these it runs an identity store of login accounts with roles, and it issues JWT bearer tokens from `POST /login`. Only `DELETE /users/{id}` requires a token, and that token must carry the Admin role.
- A React client offers login and sign-up forms, a create-exercise dialog, and two views of one user's exercises. Each view has an "available exercises" filter, an assign dialog, and delete controls that only Admin and Trainer see.

The model is a set of pure functions over one immutable `Store.State`:

- the users and exercises tables, keyed by Guid;
- the association rows, as a sequence;
- the identity accounts;
- the role names.

Each command handler returns its result together with the new state. A Guid the code would generate, the clock, the identity framework's validators and password hasher, and the browser's `parseInt` and token decoding are parameters. The client's handlers are functions from form state to the new form state and the request body they would send.

Modules follow the program:

- `Entities`, `Store`, `Tables`: the entity classes, the DbContext column constraints, and what SaveChanges does to a table.
- `ExerciseHandlers`, `UserHandlers`, `Assignments`: the MediatR handlers.
- `Identity`: account lookup and creation, role membership, the sign-up-with-role handler, and the admin seeding.
- `Login`: the login endpoint and the token it writes.
- `Routing`: bearer validation and the route table.
- `AuthContext`, `LoginForm`, `SignUpForm`, `CreateExerciseForm`, `AssignmentPages`: the client.
- `EndToEnd`: properties that connect the client to the server.
- `Wrappers`, `Seqs`, `Json`: supporting definitions.

Behaviours of the code as written that a reader might not expect:

- The route table maps no `/users/{id}/exercises` routes. The client's assign, list and remove requests therefore meet a 404; see `EndToEnd.BrowserAssignmentCallsMissRoutes` and `EndToEnd.BrowserRemovalIsRefused`. A request that reaches no handler changes nothing. It gets 404 when no template fits its path, 405 when only other methods' templates do, and 400 when an `{id}` or body does not bind. The exception is a DELETE on `/users/{id}` whose id does not bind. Routing still selects the user-delete endpoint, so that endpoint's Admin policy answers 401 or 403 first, and only an Admin caller sees the 400; see `Routing.UnboundUserDeleteIsGated`. The association handlers are still modelled as written, over the association table read as a keyless list of rows (see "## Left out").
- `POST /users` binds the plain `CreateUserCommand`. A browser sign-up drops `isTrainer` and creates no login account; see `EndToEnd.SignUpIgnoresTrainerAndCreatesNoLogin`.
- The seeding creates only the Admin role. The role-aware sign-up handler therefore fails at its role step, after saving the user row and the account; see `Identity.SignUpNeedsItsRole`.
- The list queries return an empty list for an unknown user or exercise, not a 404.
- Deleting a user or an exercise also deletes its association rows. Both foreign keys of the association are required, and for a required relationship EF Core's default delete behaviour is cascade.
- Column limits count UTF-16 code units, as .NET strings and nvarchar columns do, so a character outside the Basic Multilingual Plane counts twice.

## Model

| member | source | states |
|---|---|---|
| Entities.Utf16LengthBounds | fitnesstracker.data/FitnessTrackerDbContext.cs:25-35 | A string's UTF-16 length lies between its character count and twice that. It equals the character count for text inside the Basic Multilingual Plane, and twice it for text wholly outside. |
| Entities.NewExerciseFits | fitnesstracker.model/Exercise.cs:5-9 | A default exercise has a non-empty id and fits every column limit. |
| Tables.AddRow | fitnesstracker.data/FitnessTrackerDbContext.cs:22-36 | Insert and save: a present key gives DuplicateKey, and otherwise a column over its limit in UTF-16 code units gives ValueTooLong; both leave the table unchanged. On success exactly the new key is added and every old row is kept. |
| Tables.ReplaceRow | fitnesstracker.data/FitnessTrackerDbContext.cs:22-36 | An in-place update fails exactly when the new row overflows a column, counted in UTF-16 code units. On success the key set is unchanged and only that row differs. |
| ExerciseHandlers.CreateExercise | fitnesstracker.api/Features/Commands/CreateExerciseCommand.cs:18-30 | Succeeds iff the new id is unused and the fields fit their columns in UTF-16 code units. The stored exercise carries the command's strings and the clock reading, and the returned id is that non-empty id. A failure changes nothing; users, rows and accounts are never touched. |
| ExerciseHandlers.UpdateExercise | fitnesstracker.api/Features/Commands/exerciseCommands/UpdateExcerciseCommand.cs:17-29 | Returns false iff the id is unknown. Returns true iff it is known and the fields fit in UTF-16 code units, and then only that exercise's three strings change; its id and CreatedAt stay. |
| ExerciseHandlers.DeleteExercise | fitnesstracker.api/Features/Commands/exerciseCommands/DeleteExerciseCommand.cs:17-25 | Returns true iff the id was stored. Afterwards that key is gone and every other exercise is as before. The delete cascades: a row survives iff it was there and names another exercise. Users and accounts stay. |
| ExerciseHandlers.DeleteExerciseKeepsIntegrity | fitnesstracker.model/UserExercise.cs:5-9 | Because the delete cascades, every remaining row still names a stored user and a stored exercise. |
| ExerciseHandlers.GetExerciseById | fitnesstracker.api/Features/Queries/GetExercise.cs:19-22 | On a keyed table: the stored exercise with that Id, or None iff no stored exercise has it. |
| ExerciseHandlers.GetAllExercises | fitnesstracker.api/Features/Queries/GetAllExcercise.cs:18-21 | Every stored exercise appears, nothing else does, and none appears twice. |
| ExerciseHandlers.CreateThenGet | fitnesstracker.api/Features/Commands/CreateExerciseCommand.cs:18-30 | After a create, looking up the returned id gives the command's fields and the creation time. Every other lookup is unchanged. |
| ExerciseHandlers.UpdateThenGet | fitnesstracker.api/Features/Commands/exerciseCommands/UpdateExcerciseCommand.cs:17-29 | After an update the lookup shows the new strings with the old id and CreatedAt. False is returned exactly when the lookup was empty. |
| ExerciseHandlers.DeleteThenGet | fitnesstracker.api/Features/Commands/exerciseCommands/DeleteExerciseCommand.cs:17-25 | A delete returns true iff the lookup found the exercise. Afterwards the lookup is empty, a second delete returns false, and other lookups are unchanged. |
| ExerciseHandlers.ExerciseCommandsKeepValid | fitnesstracker.data/FitnessTrackerDbContext.cs:22-28 | Create, update and delete keep the tables keyed and within their column limits, and keep the rows unique per pair. |
| ExerciseHandlers.CreatePushUpInEmptyCatalogue | test/commands/ExerciseCommandTest/ExerciseCommandTest.cs:25-36 | Creating "Push-up" in an empty catalogue returns a non-empty id and stores exactly one exercise, named "Push-up". |
| UserHandlers.CreateUser | fitnesstracker.api/Features/Commands/CreateUserCommand.cs:17-28 | Succeeds iff the id is unused and the three strings fit in UTF-16 code units. The row then holds exactly the given name, email and unhashed password. A failure changes nothing. |
| UserHandlers.UpdateUser | fitnesstracker.api/Features/Commands/UserCommands/UpdateUserCommand.cs:17-31 | Returns false iff the id is unknown, and true iff it is known and the name, the email and the kept password fit in UTF-16 code units. On success only the name and email change; the password and id stay. |
| UserHandlers.DeleteUser | fitnesstracker.api/Features/Commands/UserCommands/DeleteUserCommand.cs:17-28 | Returns true iff the user existed. Exactly that key is removed. The delete cascades: a row survives iff it was there and names another user. Exercises and accounts stay. |
| UserHandlers.DeleteUserKeepsIntegrity | fitnesstracker.model/UserExercise.cs:5-9 | Because the delete cascades, every remaining row still names a stored user and a stored exercise. |
| UserHandlers.GetUserById | fitnesstracker.api/Features/Queries/GetUser.cs:18-21 | On a keyed table: the user with that Id, or None iff there is none. |
| UserHandlers.GetAllUsers | fitnesstracker.api/Features/Queries/GetAllUser.cs:18-21 | Every stored user appears once, passwords included. |
| UserHandlers.CreateUserThenGet | test/commands/UserCommandTest/UserCommandTest.cs:22-36 | The created user is found under the returned id with the command's name, email and password. Other lookups are unchanged. |
| UserHandlers.UpdateUserThenGet | fitnesstracker.api/Features/Commands/UserCommands/UpdateUserCommand.cs:17-31 | A successful update is visible through the lookup with the old password. False is returned iff the lookup was empty. |
| UserHandlers.DeleteUserThenGet | test/commands/UserCommandTest/UserCommandTest.cs:38-58 | After a delete the lookup is empty, a second delete returns false, and the first returned true iff the user was found. |
| UserHandlers.UserCommandsKeepValid | fitnesstracker.data/FitnessTrackerDbContext.cs:30-36 | Every user command keeps the store's invariant. |
| Assignments.AssignExerciseToUser | fitnesstracker.api/Features/Commands/UserExerciseCommands/AssignExerciseToUserCommand.cs:24-60 | Succeeds iff both the user and the exercise exist. The pair's first row then holds the requested targets, notes and time. With a row already present the row count stays the same; otherwise the requested row is appended. Other pairs' rows are unchanged and in order. A failure changes nothing. |
| Assignments.AtMostOneRow | fitnesstracker.api/Features/Commands/UserExerciseCommands/AssignExerciseToUserCommand.cs:31-34 | Under uniqueness, the lookup's predicate matches at most one row. |
| Assignments.AssignPreservesUniquePairs | fitnesstracker.api/Features/Commands/UserExerciseCommands/AssignExerciseToUserCommand.cs:31-56 | The upsert keeps at most one row per (UserId, ExerciseId), and after a success the pair has exactly one row. |
| Assignments.AssignTwiceKeepsSecond | fitnesstracker.api/Features/Commands/UserExerciseCommands/AssignExerciseToUserCommand.cs:36-42 | Assigning a pair twice leaves one row, holding the second call's details. |
| Assignments.RemoveExerciseFromUser | fitnesstracker.api/Features/Commands/UserExerciseCommands/RemoveExerciseFromUserCommand.cs:18-30 | Returns true iff the pair has a row. Then exactly one row goes, and it is one of the pair's; every other pair's rows stay in order. A failure changes nothing. |
| Assignments.DeleteKeepsUnique | fitnesstracker.api/Features/Commands/UserExerciseCommands/RemoveExerciseFromUserCommand.cs:27-28 | Deleting one row keeps the rows unique per pair. |
| Assignments.RemoveClearsPair | fitnesstracker.api/Features/Commands/UserExerciseCommands/RemoveExerciseFromUserCommand.cs:18-30 | Under uniqueness a successful remove leaves no row for the pair, and a second remove returns false. |
| Assignments.RemoveNeedsUniqueness | fitnesstracker.api/Features/Commands/UserExerciseCommands/RemoveExerciseFromUserCommand.cs:20-23 | Without uniqueness, a store with two rows for a pair still has one after a remove. |
| Assignments.GetUserExercises | fitnesstracker.api/Features/Queries/GetUserExercises.cs:19-25 | Every listed exercise comes from one of the user's rows. Every row of the user whose exercise exists contributes it. A user without rows gets an empty list. |
| Assignments.GetUserExercisesShape | fitnesstracker.api/Features/Queries/GetUserExercises.cs:19-25 | With referential integrity there is one entry per row of the user. On a valid store no exercise is listed twice. |
| Assignments.GetExerciseUsers | fitnesstracker.api/Features/Queries/GetExerciseUsers.cs:19-25 | Every listed user comes from one of the exercise's rows, each such row with an existing user contributes one, and an exercise without rows gets an empty list. |
| Assignments.GetExerciseUsersShape | fitnesstracker.api/Features/Queries/GetExerciseUsers.cs:19-25 | One entry per row of the exercise under integrity, and no user listed twice on a valid store. |
| Store.FilterKeepsUniquePairs | fitnesstracker.model/UserExercise.cs:5-9 | Dropping association rows never creates two rows for one pair. |
| Assignments.DeletedExerciseHasNoUsers | fitnesstracker.api/Features/Queries/GetExerciseUsers.cs:19-25 | After an exercise is deleted, listing its users gives the empty list. |
| Assignments.DeletedUserHasNoExercises | fitnesstracker.api/Features/Queries/GetUserExercises.cs:19-25 | After a user is deleted, listing their exercises gives the empty list. |
| Assignments.AssignKeepsInvariants | fitnesstracker.api/Features/Commands/UserExerciseCommands/AssignExerciseToUserCommand.cs:26-29 | Assign keeps the store valid and keeps every row pointing at a stored user and exercise. |
| Assignments.RemoveKeepsInvariants | fitnesstracker.api/Features/Commands/UserExerciseCommands/RemoveExerciseFromUserCommand.cs:18-30 | Remove keeps the store valid and keeps referential integrity. |
| Identity.FindByName | fitnesstracker.api/SeedData.cs:17-18 | The found account has that user name, and None iff no account has it. |
| Identity.FindByEmail | fitnesstracker.api/Features/Authentication/LoginController.cs:22 | The found account has that email, and None iff no account has it. |
| Identity.CreatePrincipal | fitnesstracker.api/Features/Commands/UserCommands/CreateUserWithRoleCommand.cs:33-46 | Succeeds iff the user name is free and passes the validator, the password passes, and the id is unused. The new account is appended with the password's hash and no roles; a failure changes nothing. |
| Identity.AddToRole | fitnesstracker.api/Features/Commands/UserCommands/CreateUserWithRoleCommand.cs:48-57 | Succeeds iff the account exists, the role exists and the account does not yet hold it. Only that account changes, by gaining the role at the end of its list. |
| Identity.AddToRoleThenMember | fitnesstracker.api/Features/Commands/UserCommands/CreateUserWithRoleCommand.cs:48-57 | After adding, the account holds the role and a second add fails with AlreadyInRole. |
| Identity.CreateUserWithRole | fitnesstracker.api/Features/Commands/UserCommands/CreateUserWithRoleCommand.cs:21-60 | Three steps, each saved on its own. A failed user row changes nothing. After that the user row is stored; a failed account leaves the accounts unchanged. Otherwise one account is appended, with user name and email both set to the request's email, the email confirmed, and the hashed password. It holds Trainer or User exactly when the run succeeds, which happens iff that role exists. |
| Identity.SignUpNeedsItsRole | fitnesstracker.api/SeedData.cs:12-15 | With only the seeded Admin role present, the sign-up always fails. If it fails at the role step, the user row and the account stay behind. |
| Identity.CreateAdmin | fitnesstracker.api/SeedData.cs:20-28 | The seeding's two ignored-result calls add the administrator, holding only Admin, iff the name is free, both validators accept, and the id is unused. Otherwise nothing changes. |
| Identity.Seed | fitnesstracker.api/SeedData.cs:7-30 | Ensures the Admin role exists, never touches the tables, and adds the administrator account exactly when none is named admin@fitnesstracker.com and creation is accepted. |
| Identity.SeedIdempotent | fitnesstracker.api/SeedData.cs:7-30 | Seeding twice gives the same store as seeding once. |
| Identity.SeedKeepsExistingAdmin | fitnesstracker.api/SeedData.cs:17-18 | With the role and an administrator present, seeding changes nothing. |
| Identity.SeedCredentialsPassDefaults | fitnesstracker.api/SeedData.cs:20-27 | The seeded user name and password pass the identity framework's default rules. |
| Identity.SeedFreshStore | fitnesstracker.api/SeedData.cs:7-30 | On an empty store, seeding leaves exactly the Admin role and one account, found by name, that is the seeded administrator. |
| Login.LookupAccount | fitnesstracker.api/Features/Authentication/LoginController.cs:22-33 | Tries email first and then user name. The result has the given text as its email or its user name, and is None iff no account has it as either. |
| Login.GuidText | fitnesstracker.api/Features/Authentication/LoginController.cs:51-52 | Guid text is 36 characters, with dashes at positions 8, 13, 18 and 23. |
| Login.DefaultKeyLongEnough | fitnesstracker.api/Features/Authentication/LoginController.cs:62-64 | The built-in key is at least 256 bits of UTF-8, so signing with it does not raise. |
| Login.LoginHandler | fitnesstracker.api/Features/Authentication/LoginController.cs:16-90 | 401 iff the account is missing or the password does not verify. 500 iff it verifies but the account has no user name, the key is too short, or the expiry would pass DateTime.MaxValue. Otherwise the token has one day's expiry, the configured issuer, audience and key, and the claims name, sub, jti, then the roles. |
| Login.LoginDoesNotRevealAccounts | fitnesstracker.api/Features/Authentication/LoginController.cs:24-43 | An unknown user name and a wrong password give the same answer. |
| Login.ClaimsForShape | fitnesstracker.api/Features/Authentication/LoginController.cs:47-58 | The claims are name, sub and jti, followed by role claims whose values are exactly the account's roles, in order. |
| Login.IssuedClaims | fitnesstracker.api/Features/Authentication/LoginController.cs:47-73 | An issued token's claims are name, sub and jti for the logged-in account, followed by exactly its roles. |
| Login.PayloadRoleProperty | fitnesstracker.api/Features/Authentication/LoginController.cs:67-77 | The payload's role property is absent when there are no role claims, a string for one, and an array for several. |
| Login.IssuedRoleProperty | fitnesstracker.api/Features/Authentication/LoginController.cs:47-77 | The role property of an issued token's payload, in terms of the account's roles. |
| Routing.ValidatorMatchesSigner | fitnesstracker.api/Program.cs:56-75 | Under any configuration, the validator expects the key, issuer and audience the login endpoint signs with. |
| Routing.Authenticate | fitnesstracker.api/Program.cs:66-75 | A bearer is accepted iff its issuer, audience and key match and its expiry plus the skew has not passed. The caller then holds exactly the token's role claims. |
| Routing.IssuedTokenAccepted | fitnesstracker.api/Program.cs:66-75 | A freshly issued token authenticates for its whole day as the account, with the account's roles. |
| Routing.ValidToNearExpiry | fitnesstracker.api/Features/Authentication/LoginController.cs:64-71 | The expiry read back from a token is its expiry rounded down to a whole second, and 1970 for an expiry at or before 1970. |
| Routing.ExpiredTokenRefused | fitnesstracker.api/Program.cs:70 | Once the expiry and the skew have passed, and the time is past 1970 plus the skew, the token is anonymous. |
| Routing.ExerciseRoute | fitnesstracker.api/Program.cs:109-147 | The exercise routes never answer 401 or 403. A 500 and every GET leave the state unchanged, and users and accounts are untouched. |
| Routing.OpenUserRoute | fitnesstracker.api/Program.cs:150-180 | The open user routes never answer 401 or 403. A 500 and the GETs leave the state unchanged, no user key disappears, and accounts are untouched. |
| Routing.DeleteUserRoute | fitnesstracker.api/Program.cs:182-189 | 401 iff there is no accepted bearer, and 403 iff the caller lacks Admin. Never 500. A user disappears only for an Admin caller. |
| Routing.LoginRoute | fitnesstracker.api/Program.cs:192 | 401 and 500 exactly for the handler's Unauthorized and Problem outcomes, never 403. |
| Routing.Dispatch | fitnesstracker.api/Program.cs:102-192 | 401 only on the user delete without a caller and on a failed login. 403 only on the user delete without Admin. Both include a DELETE on /users/{x} whose x does not bind. A 500 and every read leave the state unchanged. A user create keeps the accounts. A request that reaches no handler changes nothing and is answered 400, 401, 403, 404 or 405. |
| Routing.UnmappedRoute | fitnesstracker.api/Program.cs:182-189 | For a request that reaches no handler: 401 iff it is a DELETE on /users/{x} without an accepted bearer, and 403 iff it is such a DELETE by a caller without Admin. Otherwise it gets routing's answer. The state never changes. |
| Routing.UnboundUserDeleteIsGated | fitnesstracker.api/Program.cs:182-189 | A DELETE on /users/{x} that does not bind is answered 401 iff the caller is anonymous, 403 iff the caller lacks Admin, and 400 iff the caller holds Admin. It changes nothing. |
| Routing.UnroutedByTemplates | fitnesstracker.api/Program.cs:102-192 | For a request that reaches no handler: 404 iff no template fits the path, and 405 iff templates fit it but none takes the method. |
| Routing.UnmappedAnsweredByTemplates | fitnesstracker.api/Program.cs:102-192 | Through the route table, such a request gets 404 iff no template fits, 405 iff only other methods' templates fit, and leaves the state unchanged. |
| Routing.MethodsAtMatchesTable | fitnesstracker.api/Program.cs:102-192 | The methods read off a path's shape are exactly the methods of the templates that fit it, both ways. |
| Routing.TypedRequestsHaveTemplates | fitnesstracker.api/Program.cs:102-192 | Every typed request is sent with a method and path that a template of the table takes. |
| Routing.WrongMethodAndBadId | fitnesstracker.api/Program.cs:125-189 | PATCH on /exercises/{x} and POST on /users/{x} are 405. A GET on /exercises/{x} that reaches no handler, because x is not a Guid, is 400. None changes the state. |
| Routing.OnlyAdminsDeleteUsers | fitnesstracker.api/Program.cs:182-189 | Any request that removes a user is a user delete by an Admin caller. |
| Routing.OpenRoutesIgnoreBearer | fitnesstracker.api/Program.cs:102-180 | Every request except those meeting the user-delete endpoint, typed or with an unbindable id, answers the same with any bearer or none. |
| Routing.PutUsesPathId | fitnesstracker.api/Program.cs:133-137 | The PUT uses the path id, whatever id the body carries. |
| Routing.DispatchKeepsValid | fitnesstracker.api/Program.cs:102-192 | Every request keeps the store's invariant. |
| AuthContext.Mount | fitnesstracker.react/src/context/AuthContext.tsx:13-15 | A new provider is logged out with a null role and leaves stored tokens as they were. |
| AuthContext.LogIn | fitnesstracker.react/src/context/AuthContext.tsx:17-21 | Stores the token and becomes logged in with exactly the given role. |
| AuthContext.LogOut | fitnesstracker.react/src/context/AuthContext.tsx:23-27 | Removes the token and resets to logged out with a null role. |
| AuthContext.UseAuth | fitnesstracker.react/src/context/AuthContext.tsx:36-41 | Returns the context inside a provider; outside one it gives the provider error. |
| AuthContext.SessionHasNoMemory | fitnesstracker.react/src/context/AuthContext.tsx:17-27 | Logout always gives a fresh provider's state, login depends only on its arguments, and logging in then out equals logging out. |
| AuthContext.ContextTestCases | fitnesstracker.react/src/__tests__/AuthTest.test.tsx:45-78 | Covers the initial state, a login as User with a fake token, and the logout that follows. |
| LoginForm.Submit | fitnesstracker.react/src/components/Login.tsx:16-35 | Sends nothing iff the email or password is empty, setting the message. Otherwise it posts the email as `username` together with the password. |
| LoginForm.Split | fitnesstracker.react/src/components/Login.tsx:61 | Split returns at least one segment, and no segment contains the separator. |
| LoginForm.SplitThenJoin | fitnesstracker.react/src/components/Login.tsx:61 | Joining the split segments with the separator gives back the token. |
| LoginForm.JoinThenSplit | fitnesstracker.react/src/components/Login.tsx:61 | Splitting separator-free segments joined with the separator gives back the segments. |
| LoginForm.Segment | fitnesstracker.react/src/components/Login.tsx:61 | The indexed segment exists iff the index is in range. |
| LoginForm.ToStandardAlphabet | fitnesstracker.react/src/components/Login.tsx:62 | Length is kept, no '-' or '_' remains, and URL-safe text becomes standard base64 text. |
| LoginForm.AlphabetRoundTrip | fitnesstracker.react/src/components/Login.tsx:62 | On their alphabets, the URL-safe conversion and the standard conversion invert each other. |
| LoginForm.RoleFromToken | fitnesstracker.react/src/components/Login.tsx:59-79 | A token without a second segment gives the role 'User'. |
| LoginForm.RoleFromPayloadCases | fitnesstracker.react/src/components/Login.tsx:68-74 | A non-empty string claim is returned as is. An array claim gives its first element. A missing, null or empty claim gives 'User'. |
| LoginForm.RoleReadsSecondSegmentOnly | fitnesstracker.react/src/components/Login.tsx:61-67 | The role depends only on the second segment, and a segment that fails to decode gives 'User'. |
| LoginForm.FakeTokenFallsBack | fitnesstracker.react/src/__tests__/LoginTest.test.tsx:61-63 | The test stub's 'fake-token' has no second segment, so its role is 'User'. |
| SignUpForm.Problem | fitnesstracker.react/src/components/SignUp.tsx:22-30 | Reports the missing-field message iff name, email or password is empty. Reports the mismatch iff all three are filled and the passwords differ. |
| SignUpForm.Submit | fitnesstracker.react/src/components/SignUp.tsx:22-46 | Sends iff both checks pass, with exactly the four fields as typed; otherwise it shows the first problem. |
| SignUpForm.RequiredFieldsReportedFirst | fitnesstracker.react/src/components/SignUp.tsx:22-30 | With both a blank field and a mismatch, the blank field is reported. |
| SignUpForm.SubmitLabel | fitnesstracker.react/src/components/SignUp.tsx:137 | The loading label shows iff loading. The trainer label shows iff the box is ticked and not loading. |
| CreateExerciseForm.Submit | fitnesstracker.react/src/components/CreateExercise.tsx:24-39 | Sends nothing iff a field is empty, setting the message. Otherwise it posts the three fields. |
| CreateExerciseForm.Finish | fitnesstracker.react/src/components/CreateExercise.tsx:42-48 | Success empties the fields. A failure keeps them and shows the error's message, or the generic one when a non-Error is thrown. |
| CreateExerciseForm.Close | fitnesstracker.react/src/components/CreateExercise.tsx:55-60 | Closing clears every field and the error. |
| CreateExerciseForm.SuccessClearsForm | fitnesstracker.react/src/components/CreateExercise.tsx:42-44 | After a success the next submit is refused, no error shows, and closing gives the same state as closing at once. |
| AssignmentPages.PageList | fitnesstracker.react/src/pages/UserExercisesPage.tsx:62 | An array is kept and anything else becomes the empty list. |
| AssignmentPages.AvailableMembers | fitnesstracker.react/src/pages/UserExercisesPage.tsx:80-82 | An exercise is offered iff it is in the catalogue and no listed exercise has its id. |
| AssignmentPages.AvailableShape | fitnesstracker.react/src/components/UserExercises.tsx:48-49 | The filter distributes over concatenation, keeping order, and applying it twice equals applying it once. An empty list offers the whole catalogue. |
| AssignmentPages.ComponentAvailable | fitnesstracker.react/src/components/UserExercises.tsx:47-53 | A stored non-array fails with the generic message; an array gives the filtered catalogue. |
| AssignmentPages.DetailsOf | fitnesstracker.react/src/pages/UserExercisesPage.tsx:97-101 | Blank numbers and notes become null. Other numbers are parsed, with NaN sent as null, and notes are sent as typed. |
| AssignmentPages.Submit | fitnesstracker.react/src/components/UserExercises.tsx:58-65 | Sends nothing iff nothing is selected. Otherwise it sends the selected id and the details. |
| AssignmentPages.AfterAssign | fitnesstracker.react/src/pages/UserExercisesPage.tsx:108-113 | After the page's successful assignment, the dialog is closed and every input is empty. |
| AssignmentPages.AssignedDialogIsInert | fitnesstracker.react/src/components/UserExercises.tsx:78-82 | A reset dialog submits nothing, and its details are all null. |
| AssignmentPages.AssignDisabled | fitnesstracker.react/src/pages/UserExercisesPage.tsx:291 | The button is enabled iff something is selected and something is offered. |
| AssignmentPages.EnabledButtonSubmits | fitnesstracker.react/src/pages/UserExercisesPage.tsx:291 | An enabled button always sends a request. |
| AssignmentPages.ManageRoles | fitnesstracker.react/src/pages/UserExercisesPage.tsx:155 | The controls show iff the role is the string Admin or Trainer; null and User do not qualify. |
| AssignmentPages.RemoveLocalMembers | fitnesstracker.react/src/components/UserExercises.tsx:95 | An entry survives local removal iff it was listed and has another id. |
| AssignmentPages.RemoveLocalShape | fitnesstracker.react/src/components/UserExercises.tsx:95 | Removal distributes over concatenation and leaves a list without that id unchanged. |
| AssignmentPages.ComponentAfterRemove | fitnesstracker.react/src/components/UserExercises.tsx:89-99 | On a 2xx every survivor was listed and has another id. On any other status the list stays. |
| EndToEnd.LoginFormFindsSignedUpAccount | fitnesstracker.api/Features/Commands/UserCommands/CreateUserWithRoleCommand.cs:33-38 | After a role-aware sign-up, the login form's username, which is the email, finds an account. When no earlier account has that email, the account found is the one the sign-up created. |
| EndToEnd.UiRoleOfIssuedToken | fitnesstracker.react/src/components/Login.tsx:68-78 | The role the client reads from an issued token is the account's first role, or 'User' when it has none or only an empty one. |
| EndToEnd.LoginGrantsControls | fitnesstracker.react/src/pages/UserExercisesPage.tsx:155 | Once the token text decodes to the payload, the context gets the first role, and the controls show iff that role is Admin or Trainer. |
| EndToEnd.BindSignUp | fitnesstracker.api/Program.cs:150 | The sign-up body binds to the plain command, keeping name, email and password. |
| EndToEnd.SignUpIgnoresTrainerAndCreatesNoLogin | fitnesstracker.react/src/components/SignUp.tsx:41-46 | The server answers the same whichever box is ticked, the accounts are unchanged, and every login lookup answers as before. |
| EndToEnd.LocalRemovalMatchesServer | fitnesstracker.react/src/components/UserExercises.tsx:95 | On a valid store, the client's local filter gives exactly the list the server would return after its remove. |
| EndToEnd.BrowserAssignmentCallsMissRoutes | fitnesstracker.react/src/pages/UserExercisesPage.tsx:60-127 | The client's list, assign and remove calls under /users/{userId}/exercises are each answered 404 with the state unchanged, whatever the ids. |
| EndToEnd.BrowserRemovalIsRefused | fitnesstracker.react/src/components/UserExercises.tsx:91-93 | The client's DELETE of /users/{userId}/exercises/{exerciseId} is refused with the state unchanged, and the list on screen stays. |

## Left out

- The association table: the context declares no set for `UserExercise` and configures no key for it, which EF Core would refuse when it builds the model. The model assumes the table exists and reads it as a keyless list of rows; uniqueness per (UserId, ExerciseId) is what the handlers maintain.
- Missing JSON string properties: the binder would leave such a string null, and a NOT NULL column then makes SaveChanges raise, which the client sees as a 500. Strings are never null in the model, so that path is not represented.
- Route matching details: literal segments compare exactly (ASP.NET compares them case-insensitively), trailing slashes and query strings are not represented, and a path is given already split into its segments. Whether an `{id}` segment parses as a Guid is not computed; an `Unmapped` request on an `{id}` template stands for one that did not bind. For the user delete it still passes the endpoint's authorization first.
- Persistence, EF change tracking, async calls and concurrency. Each handler is one atomic step on an immutable state.
- Guid.NewGuid, DateTime.UtcNow and DateTime.Now are parameters. Local versus UTC time is not distinguished.
- The identity framework is modelled only as far as the API uses it: lookup, create, add-to-role and the password check. Its validators, hasher and verifier are parameters. Normalised (upper-cased) lookups are not modelled, so names compare exactly.
- Identity.FindByEmail: returns the first match. The framework throws when two accounts share an email, which the model does not reproduce.
- Token signing is not computed. A token records its key, and validation compares keys. JSON serialisation of the token body is reduced to the role property's shape, and base64url encoding is not modelled.
- The signing key's UTF-8 length is modelled. HMAC itself is not.
- The exception handler's JSON body, HTTPS redirection, CORS and Swagger are not modelled; a 500 is only a status.
- The service layer (fitnesstracker.service) and the stub CreateExerciseCommand under Features/Exercises/Commands are not part of this model.
- The client's `fetchWithAuth` helper (src/utils/api.ts) is not modelled as such. Only its 2xx check appears, in AssignmentPages.ComponentAfterRemove.
- `parseInt`, `atob`, percent-decoding and `JSON.parse` are parameters of the client functions.
- Rendering, loading flags, React effects, and the page's `setTimeout` refetch after an assignment are not modelled.
- The catalogue response is modelled as a list. The page's `filter` on a non-array catalogue response is not modelled.
- The UI error messages for failed fetches, other than the available-exercises message and the create dialog's messages, are not modelled.
- ExerciseHandlers.GetAllExercises: states the result's contents and length, but not its order, which the database chooses.
- UserHandlers.GetAllUsers: likewise, the order is not stated.
- AssignmentPages.ComponentAfterRemove: on a 2xx it states only that survivors were listed and have another id; AssignmentPages.RemoveLocalMembers states the converse.
- LoginForm.RoleFromToken: its own contract covers only the missing-segment case; RoleFromPayloadCases and RoleReadsSecondSegmentOnly state the rest.
- Login.LoginHandler: the issued role claims follow the account's role list in the order the roles were added. `GetRolesAsync` has no ordering, so the source's order is whatever the database returns, and the model does not promise the source's order for an account with two or more roles.
- Login.ClaimsForShape: the same role order as `LoginHandler`; only the order of two or more role claims may differ from the source.
- Login.IssuedClaims: the same role order as `LoginHandler`; only the order of two or more role claims may differ from the source.
- Login.IssuedRoleProperty: the role array of an account with two or more roles is written in the model's role order, not the database's.
- EndToEnd.UiRoleOfIssuedToken: for an account with two or more roles, "first role" means first in the model's role order; the source shows whichever role the database returns first.
- EndToEnd.LoginGrantsControls: for an account with two or more roles, which role the browser reads depends on the database's order, which the model replaces by the order the roles were added.
- Native constraint validation of the sign-up form: its four inputs are `required` and the email input has `type="email"`, and the form does not turn validation off. A browser therefore refuses an empty or malformed submit before `handleSubmit` runs. SignUpForm models `handleSubmit` only. The create-exercise dialog's inputs are also `required`, but its submit button sits outside the form and calls `handleSubmit` directly, so there the browser does not intervene.
- Requests without an `{id}` or a body: a GET on `/health`, `/exercises` or `/users` always binds, so the client never meets the 400 that `Routing.Unrouted` gives such a path. The model reaches those handlers only through the typed requests `Health`, `GetExercises` and `GetUsers`, and an `Unmapped` request with one of these shapes stands for no real request.
- 32-bit `int?` targets are carried as `Int32` values. The client's numbers are not range-checked against it, because the JSON binding's overflow error is part of ASP.NET and not modelled.
