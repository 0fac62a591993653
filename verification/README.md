# User preference service: a Dafny model

This project models the decision logic of a small user service. The service
keeps one preference record per user; today that record holds only a
preferred language. It has four HTTP endpoints:

- create (`POST v1/user`)
- read (`GET v1/user/{userId}`)
- update (`PUT v1/user/{userId}`)
- soft-delete (`DELETE v1/user/{userId}`)

Each endpoint is gated by the caller's claims. The model follows the
program's three layers, one module each:

- `Entities` (`entities.dfy`): the `Preference` row, with `IsActiveFor` and `HasActive`.
- `Repository` (`repository.dfy`): the single-table store.
  - The committed table is `Database(rows, nextId)`. `nextId` is the identity column's next value.
  - Each request gets its own unit of work, `Context(db, pending)`. It is opened with nothing pending, as the per-request database context is.
  - The lookup reads the first committed row with the given user and soft-delete flag. The flag defaults to `false`.
  - Add records an `Added` change. A null entity is refused with an argument error.
  - Assigning fields of a tracked entity records a `Modified` change.
  - Commit applies the pending changes in order. An insert takes the next identity value. An update overwrites the row with the same Id.
- `Service` (`service.dfy`): builds the new record, updates it and soft-deletes it.
- `Models` (`models.dfy`): the API shapes and the explicit projection of a record. A null record projects to null.
- `Controller` (`controller.dfy`): the four endpoints as pure functions. Each takes the committed table and returns a `Response(outcome, table')`.
  - `Dispatch` routes a `Request` to its endpoint.
  - `Run` threads a sequence of requests through the table.
- `Properties` (`properties.dfy`): properties that span several requests.
  - The table invariant `Valid`: at most one active record per user, and distinct identity values below `nextId`. Every endpoint preserves it.
  - What each successful change writes.
  - Read-after-create, read-after-update and read-after-delete.
  - Idempotent delete and the double-create conflict.
  - The access rule as an if-and-only-if.
  - The full create/read/update/read/delete/read lifecycle.

Claims arrive already parsed, as `Identity(actorId, elevatedRights)`.
`InvalidIdentity` stands for a credential that authentication rejected
(401). `elevatedRights` stands for the `ElevatedRights` claim, taken to be
exactly "True" or "False". The "Administrator" policy
(User.Service/Startup.cs:101) admits exactly the callers whose flag is set.
Requests are answered in the order the web framework uses:

1. Authentication (401).
2. The policy attribute on create and delete (403).
3. Model validation (400). The request body is `None` when validation rejects it.
4. The action body. Read and update check "elevated rights, or the caller's own user" here, before any lookup (403).

Clock readings are explicit parameters. Create takes two readings:
`EditedOn` and `CreatedOn` of a new record come from two separate clock
reads, first `EditedOn` and then `CreatedOn`
(User.Domain/Services/UserService.cs:33,35), so no order between them is
stated.

## Model

| member | source | states |
|---|---|---|
| Repository.FirstIndex | User.DataAccess/Repositories/UserRepository.cs:21 | the position returned is a row the filter accepts and no earlier row is accepted; none only when no row is accepted |
| Repository.GetUserPreference | User.DataAccess/Repositories/UserRepository.cs:19-22 | a returned record has the requested user and exactly the requested soft-delete flag and is the first such committed row; none exactly when no committed row matches both; the flag defaults to active records only |
| Repository.LookupFlagsCoverUser | User.DataAccess/Repositories/UserRepository.cs:19-22 | the lookup with flag false and the lookup with flag true both return nothing if and only if the table holds no row at all for the user |
| Repository.PostUserPreference | User.DataAccess/Repositories/UserRepository.cs:24-30 | a null entity fails with an argument-null error naming `preferences` and adds nothing; any other entity is appended as pending exactly once, with the table untouched |
| Repository.Apply | User.DataAccess/Repositories/UserRepository.cs:32-35 | applying changes grows the table by the number of inserts, keeps every existing row's Id, and gives the inserted rows consecutive identity values starting at the next one |
| Repository.CompleteTransaction | User.DataAccess/Repositories/UserRepository.cs:32-35 | after a commit nothing is pending, the table has grown by the number of pending inserts, and existing rows keep their Ids |
| Repository.ApplyAdditions | User.DataAccess/Repositories/UserRepository.cs:29-34 | applying only inserts yields the old rows followed by the added records in order, numbered from the next identity value |
| Repository.CommitAppendsAdditions | User.DataAccess/Repositories/UserRepository.cs:24-35 | records added and then committed become rows after all existing rows, in order, each with its assigned identity value |
| Repository.CommitModifiedInPlace | User.DataAccess/Repositories/UserRepository.cs:32-35 | committing a change to a tracked entity overwrites exactly the row with that key and nothing else, given distinct keys |
| Repository.CommitIdempotent | User.DataAccess/Repositories/UserRepository.cs:32-35 | a commit with nothing pending changes nothing, so committing twice equals committing once |
| Models.ToPreferencesModel | User.Domain/Models/PreferencesModel.cs:9-19 | no record projects to nothing and a record projects to something; the projection's UserId and Language are the record's UserId and PreferredLanguage |
| Models.ProjectionShowsOnlyUserAndLanguage | User.Domain/Models/PreferencesModel.cs:14-24 | two records project equally if and only if they agree on UserId and PreferredLanguage, so Id, the soft-delete flag and the audit fields are not exposed |
| Service.GetUserPreference | User.Domain/Services/UserService.cs:19-22 | the service lookup uses the default flag: it returns only an active record of the requested user, and returns nothing exactly when the user has no active record |
| Service.PostUserPreference | User.Domain/Services/UserService.cs:24-37 | exactly one insert is appended as pending. It is active and has the model's UserId and Language. CreatedBy and EditedBy are both the caller, and EditedOn and CreatedOn are the first and second clock readings. The table is untouched |
| Service.PutUserPreference | User.Domain/Services/UserService.cs:39-44 | an update sets the language, EditedBy and EditedOn. It keeps Id, UserId, Deleted, CreatedBy and CreatedOn |
| Service.DeleteUserPreference | User.Domain/Services/UserService.cs:46-51 | a soft delete raises the flag and sets EditedBy and EditedOn. It keeps Id, UserId, PreferredLanguage, CreatedBy and CreatedOn |
| Service.CompleteTransaction | User.Domain/Services/UserService.cs:53-56 | committing through the service leaves nothing pending and grows the table by the pending inserts |
| Service.PutLastWriteWins | User.Domain/Services/UserService.cs:39-44 | two updates in a row are the same as the second update alone |
| Service.DeleteIdempotent | User.Domain/Services/UserService.cs:46-51 | soft-deleting an already deleted record keeps it deleted and equals one delete carrying the later edit stamp |
| Service.DeleteKeepsProjection | User.Domain/Services/UserService.cs:46-51 | a soft delete does not change the user or language the projection shows |
| Controller.PostUserPreferences | User.Service/Controllers/UserController.cs:24-43 | a rejected credential gets 401 and a caller without elevated rights gets 403, both with the table unchanged. A rejected body gets 400. An active record of the target gets 400 "user exists" with the table unchanged. Otherwise the answer is 200 with the target's id and one new row |
| Controller.GetUserPreferences | User.Service/Controllers/UserController.cs:45-66 | the table never changes. 401 for a rejected credential. 403 for a caller without elevated rights reading another user, whether or not a record exists. 404 when there is no active record. Otherwise 200 with an active record's user and language |
| Controller.PutUserPreferences | User.Service/Controllers/UserController.cs:68-92 | 401 for a rejected credential, then 400 for a rejected body. 403 for a caller without elevated rights updating another user. 404 with no change when there is no active record. Otherwise 200, with row count and next identity value unchanged |
| Controller.DeleteUserPreferences | User.Service/Controllers/UserController.cs:94-112 | 401 for a rejected credential and 403 for a caller without elevated rights, whatever the target, both with no change. An administrator always gets 200. With no active record, whether never created or already deleted, the table is unchanged |
| Controller.AdministratorPolicyGatesCreateAndDelete | User.Service/Startup.cs:101 | for an authenticated caller, create and delete answer 403 if and only if the Administrator policy refuses the caller, whatever the body and target and whether or not a record exists |
| Properties.PostAppendsRecord | User.Service/Controllers/UserController.cs:35-42 | a create for a user without an active record answers 200 with the user's id. The old rows stay and one row is appended: the new active record, built from the model and the caller, with the next identity value |
| Properties.PutRewritesActive | User.Service/Controllers/UserController.cs:84-91 | a permitted update of an existing preference rewrites exactly the user's active row with the new language and edit stamp |
| Properties.DeleteMarksActive | User.Service/Controllers/UserController.cs:104-111 | an administrator's delete of an existing preference soft-deletes exactly the user's active row |
| Properties.SameKeyRewriteKeepsValid | User.Domain/Services/UserService.cs:39-51 | overwriting a row with a record of the same Id and owner that is not newly active keeps the table invariant |
| Properties.DispatchKeepsValid | User.Service/Controllers/UserController.cs:31-112 | every endpoint, on every input, keeps the identity values distinct and below the next one, and keeps at most one active record per user |
| Properties.RunKeepsValid | User.Service/Controllers/UserController.cs:35-39 | across any sequence of requests from a valid table, no user ever has two active records |
| Properties.NoDuplicateActiveFromEmpty | User.Service/Controllers/UserController.cs:35-39 | every table reachable from the empty table has at most one active record per user |
| Properties.DeleteLeavesNoActive | User.Service/Controllers/UserController.cs:100-111 | after an administrator's delete the user has no active record left |
| Properties.ReadAfterDeleteLikeNeverCreated | User.Service.Tests/ControllerIntegrationTests.cs:164-178 | reading after a delete answers 404, the same as reading a user with no record at all |
| Properties.DeleteTwiceIsDeleteOnce | User.Service.Tests/ControllerIntegrationTests.cs:376-396 | a second delete answers 200 and leaves the table exactly as the first delete left it |
| Properties.ReadFindsActive | User.Service/Controllers/UserController.cs:61-65 | in a valid table, a permitted read of a user with an active record answers 200 with that record's user and language |
| Properties.ReadAfterCreate | User.Service/Controllers/UserController.cs:31-66 | creating a preference and then reading it answers 200 with exactly the created user and language |
| Properties.ReadAfterUpdate | User.Service/Controllers/UserController.cs:53-92 | updating a preference and then reading it answers 200 with the new language |
| Properties.CreateTwiceConflicts | User.Service.Tests/ControllerIntegrationTests.cs:102-123 | creating the same user twice: the second create answers 400 "user exists" and leaves the table as the first create left it |
| Properties.CreateLeavesExactlyOne | User.Service.Tests/ControllerIntegrationTests.cs:82-99 | after a successful create the table holds exactly one active record of the created user |
| Properties.ForbiddenIffNotPermitted | User.Service/Controllers/UserController.cs:25-95 | for an authenticated caller with a valid body, a request gets 403 if and only if the access rule refuses it. Create and delete need elevated rights. Read and update need elevated rights or the caller's own user |
| Properties.OnlySuccessChangesTable | User.Service/Controllers/UserController.cs:31-112 | a rejected credential gets 401 with no change, and any change to the table comes with a 200 |
| Properties.CreatePhase | User.Service/Controllers/UserController.cs:31-66 | an administrator's create of "GB" for a user without an active record answers 200 with the user's id, a read then answers "GB", and the table stays valid with the user's record active |
| Properties.UpdatePhase | User.Service/Controllers/UserController.cs:53-92 | an administrator's update to "DK" of an existing preference answers 200, a read then answers "DK", and the table stays valid |
| Properties.Lifecycle | User.Service/Controllers/UserController.cs:31-112 | an administrator's create "GB", read, update "DK", read, delete, read answers 200 with the user's id, then "GB", 200, "DK", 200, and finally 404 |
| Properties.ReadOtherUserForbidden | User.Service.Tests/ControllerIntegrationTests.cs:147-161 | a caller without elevated rights reading another user gets 403 and the table is unchanged, whether or not that user has a record |

## Left out

- Token validation (signature, issuer, audience, lifetime) and claim parsing (`Guid.Parse`, `bool.Parse`): framework behaviour. The model takes the parsed claims, or `InvalidIdentity` for a rejected credential.
- A token without a `userId` claim: `Single(...)` throws inside every action (a 500). A token without an `ElevatedRights` claim: create and delete never read that claim in the action, so the Administrator policy refuses them first with 403, which the model gives for an unset flag; read and update read it with `Single(...)` and throw (a 500). These 500 paths are not modelled because identities arrive already parsed.
- The single `elevatedRights` flag assumes the claim value is exactly "True" or "False". The policy compares the value exactly and case-sensitively, while read and update use `bool.Parse`, which ignores case and surrounding whitespace: a value such as "true" counts as elevated for read and update but gets 403 on create and delete, and a value that is neither boolean throws in read and update. One boolean cannot express these cases.
- Model validation: `[Required]` on the language is represented only by an absent body. The rule that an empty or whitespace-only string counts as missing is left to the framework.
- `UserConstants` (the literal text of the "user exists" message) is not part of this model. The message is the `UserExists` constructor.
- `PutPreferencesModel` is not part of this model beyond its `Language` field.
- Store and commit failures (500 responses), `async`/`Task`, disposal of the context, and the EF Core query engine: the store is an abstract sequence of rows.
- The check-then-insert race between concurrent creates: the model is sequential.
- Row order: the lookup returns the first matching row in table order, while an SQL `FirstOrDefault` without `ORDER BY` may return any matching row. Under the invariant a user has at most one active row, so the default lookup is unaffected.
- Widths: Guids, the 32-bit identity column and timestamps are unbounded naturals; identity overflow is not modelled.
- Controller.PostUserPreferences: its own contract gives only the outcome and the row count on success; the appended row's contents are stated by Properties.PostAppendsRecord.
- Controller.PutUserPreferences: its own contract gives only the outcome and sizes on success; the rewritten row is stated by Properties.PutRewritesActive, which assumes the table invariant (distinct Ids).
- Controller.DeleteUserPreferences: its own contract gives only the outcome and sizes on success; the soft-deleted row is stated by Properties.DeleteMarksActive, which assumes the table invariant.
