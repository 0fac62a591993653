/** Properties of the endpoints over whole runs of requests: the table
    invariant they keep, what each successful change writes, and the
    observable lifecycle of one user's preference. */
module Properties {
  import opened Wrappers
  import opened Entities
  import opened Models
  import opened Repository
  import opened Controller
  import Service

  /** No user has two active records. */
  ghost predicate AtMostOneActive(rows: seq<Preference>) {
    forall i, j :: 0 <= i < j < |rows| && rows[i].UserId == rows[j].UserId ==> rows[i].Deleted || rows[j].Deleted
  }

  /** The table between requests: identity values are distinct and below
      the next one to hand out, and no user has two active records. */
  ghost predicate Valid(db: Database) {
    && UniqueIds(db.rows)
    && (forall i :: 0 <= i < |db.rows| ==> db.rows[i].Id < db.nextId)
    && AtMostOneActive(db.rows)
  }

  /** Two active records of one user in such a table are the same row. */
  lemma ActiveUnique(rows: seq<Preference>, i: nat, j: nat, userId: Guid)
    requires AtMostOneActive(rows) && i < |rows| && j < |rows|
    requires IsActiveFor(rows[i], userId) && IsActiveFor(rows[j], userId)
    ensures i == j
  {
  }

  /** The table holds exactly one active record of `userId`. */
  ghost predicate ExactlyOneActive(rows: seq<Preference>, userId: Guid) {
    && HasActive(rows, userId)
    && forall i, j :: 0 <= i < |rows| && 0 <= j < |rows| && IsActiveFor(rows[i], userId) && IsActiveFor(rows[j], userId)
         ==> i == j
  }

  /** The record a successful create stores for `model`. */
  predicate CreatedFrom(p: Preference, model: PreferencesModel, actor: Guid, editedAt: Instant, createdAt: Instant) {
    && p.UserId == model.UserId && p.PreferredLanguage == model.Language && !p.Deleted
    && p.CreatedBy == actor && p.EditedBy == actor && p.CreatedOn == createdAt && p.EditedOn == editedAt
  }

  /** A successful create appends exactly one row, the new active record of
      the model's user, with the next identity value; old rows stay. */
  lemma PostAppendsRecord(db: Database, actor: Guid, model: PreferencesModel, editedAt: Instant, createdAt: Instant)
    requires !HasActive(db.rows, model.UserId)
    ensures var r := PostUserPreferences(db, Identity(actor, true), Some(model), editedAt, createdAt);
      && r.outcome == Ok(UserIdBody(model.UserId))
      && |r.db.rows| == |db.rows| + 1 && r.db.rows[..|db.rows|] == db.rows
      && r.db.rows[|db.rows|].Id == db.nextId && r.db.nextId == db.nextId + 1
      && CreatedFrom(r.db.rows[|db.rows|], model, actor, editedAt, createdAt)
  {
    var ctx := Service.PostUserPreference(Open(db), model, actor, editedAt, createdAt);
    CommitAppendsAdditions(ctx);
  }

  /** A successful update rewrites the active record in place with the new
      language and edit stamp; no other row changes. */
  lemma PutRewritesActive(db: Database, id: Identity, userId: Guid, model: PutPreferencesModel, now: Instant)
    returns (i: nat)
    requires Valid(db) && id.Identity? && (id.elevatedRights || userId == id.actorId)
    requires HasActive(db.rows, userId)
    ensures i < |db.rows| && IsActiveFor(db.rows[i], userId)
    ensures PutUserPreferences(db, id, userId, Some(model), now).db
         == Database(db.rows[i := Service.PutUserPreference(db.rows[i], model, id.actorId, now)], db.nextId)
  {
    var ctx := Open(db);
    var p := Service.GetUserPreference(ctx, userId).value;
    i :| 0 <= i < |db.rows| && db.rows[i] == p;
    var updated := Service.PutUserPreference(p, model, id.actorId, now);
    CommitModifiedInPlace(Track(ctx, updated), i, updated);
  }

  /** A delete of an active record soft-deletes it in place; no other row
      changes. */
  lemma DeleteMarksActive(db: Database, actor: Guid, userId: Guid, now: Instant) returns (i: nat)
    requires Valid(db) && HasActive(db.rows, userId)
    ensures i < |db.rows| && IsActiveFor(db.rows[i], userId)
    ensures DeleteUserPreferences(db, Identity(actor, true), userId, now).db
         == Database(db.rows[i := Service.DeleteUserPreference(db.rows[i], actor, now)], db.nextId)
  {
    var ctx := Open(db);
    var p := Service.GetUserPreference(ctx, userId).value;
    i :| 0 <= i < |db.rows| && db.rows[i] == p;
    var deleted := Service.DeleteUserPreference(p, actor, now);
    CommitModifiedInPlace(Track(ctx, deleted), i, deleted);
  }

  /** Writing a record that keeps the Id, owner and flag of row `i` keeps the
      table valid. */
  lemma SameKeyRewriteKeepsValid(db: Database, i: nat, p: Preference)
    requires Valid(db) && i < |db.rows|
    requires p.Id == db.rows[i].Id && p.UserId == db.rows[i].UserId
    requires p.Deleted == db.rows[i].Deleted || p.Deleted
    ensures Valid(Database(db.rows[i := p], db.nextId))
  {
  }

  /** Every endpoint keeps the table valid. */
  lemma DispatchKeepsValid(db: Database, req: Request)
    requires Valid(db)
    ensures Valid(Dispatch(db, req).db)
  {
    match req
    case Post(id, body, editedAt, createdAt) =>
      if id.Identity? && id.elevatedRights && body.Some? && !HasActive(db.rows, body.value.UserId) {
        PostAppendsRecord(db, id.actorId, body.value, editedAt, createdAt);
        var rows' := Dispatch(db, req).db.rows;
        forall i, j | 0 <= i < j < |rows'| && rows'[i].UserId == rows'[j].UserId
          ensures rows'[i].Deleted || rows'[j].Deleted
        {
          if j == |db.rows| {
            assert !IsActiveFor(db.rows[i], body.value.UserId);
          }
        }
      }
    case Get(_, _) =>
    case Put(id, userId, body, now) =>
      if id.Identity? && body.Some? && (id.elevatedRights || userId == id.actorId) && HasActive(db.rows, userId) {
        var i := PutRewritesActive(db, id, userId, body.value, now);
        SameKeyRewriteKeepsValid(db, i, Service.PutUserPreference(db.rows[i], body.value, id.actorId, now));
      }
    case Delete(id, userId, now) =>
      if id.Identity? && id.elevatedRights && HasActive(db.rows, userId) {
        var i := DeleteMarksActive(db, id.actorId, userId, now);
        SameKeyRewriteKeepsValid(db, i, Service.DeleteUserPreference(db.rows[i], id.actorId, now));
      }
  }

  /** Across any sequence of requests no user ever has two active records:
      the existence check precedes the only insertion. */
  lemma {:induction false} RunKeepsValid(db: Database, reqs: seq<Request>)
    requires Valid(db)
    ensures Valid(Run(db, reqs))
    ensures AtMostOneActive(Run(db, reqs).rows)
    decreases |reqs|
  {
    if |reqs| > 0 {
      DispatchKeepsValid(db, reqs[0]);
      RunKeepsValid(Dispatch(db, reqs[0]).db, reqs[1..]);
    }
  }

  /** Starting from an empty table, every reachable table has at most one
      active record per user. */
  lemma NoDuplicateActiveFromEmpty(reqs: seq<Request>)
    ensures AtMostOneActive(Run(Database([], 0), reqs).rows)
  {
    RunKeepsValid(Database([], 0), reqs);
  }

  /** After an administrator deletes a user's preference no active record of
      that user remains. */
  lemma DeleteLeavesNoActive(db: Database, actor: Guid, userId: Guid, now: Instant)
    requires Valid(db)
    ensures !HasActive(DeleteUserPreferences(db, Identity(actor, true), userId, now).db.rows, userId)
  {
    if HasActive(db.rows, userId) {
      var i := DeleteMarksActive(db, actor, userId, now);
      var rows' := DeleteUserPreferences(db, Identity(actor, true), userId, now).db.rows;
      forall j | 0 <= j < |rows'|
        ensures !IsActiveFor(rows'[j], userId)
      {
        assert j == i || rows'[j] == db.rows[j];
      }
    }
  }

  /** Reading after a delete is answered exactly as reading a user that was
      never created: 404 for anyone allowed to read. */
  lemma ReadAfterDeleteLikeNeverCreated(db: Database, actor: Guid, userId: Guid, now: Instant,
                                        reader: Identity, untouched: Database)
    requires Valid(db)
    requires forall k :: 0 <= k < |untouched.rows| ==> untouched.rows[k].UserId != userId
    requires reader.Identity? && (reader.elevatedRights || userId == reader.actorId)
    ensures var db' := DeleteUserPreferences(db, Identity(actor, true), userId, now).db;
      GetUserPreferences(db', reader, userId).outcome == NotFound
      && GetUserPreferences(untouched, reader, userId).outcome == NotFound
  {
    DeleteLeavesNoActive(db, actor, userId, now);
  }

  /** Deleting twice is the same as deleting once: the second delete answers
      200 and leaves the table as the first left it. */
  lemma DeleteTwiceIsDeleteOnce(db: Database, actor: Guid, userId: Guid, t1: Instant, t2: Instant)
    requires Valid(db)
    ensures var db1 := DeleteUserPreferences(db, Identity(actor, true), userId, t1).db;
      DeleteUserPreferences(db1, Identity(actor, true), userId, t2) == Response(Ok(Empty), db1)
  {
    DeleteLeavesNoActive(db, actor, userId, t1);
  }

  /** In a valid table, a successful read returns the one active record. */
  lemma ReadFindsActive(db: Database, reader: Identity, i: nat)
    requires Valid(db) && i < |db.rows| && reader.Identity?
    requires reader.elevatedRights || db.rows[i].UserId == reader.actorId
    requires !db.rows[i].Deleted
    ensures GetUserPreferences(db, reader, db.rows[i].UserId).outcome
         == Ok(PreferencesBody(PreferencesModel(db.rows[i].UserId, db.rows[i].PreferredLanguage)))
  {
    var userId := db.rows[i].UserId;
    assert IsActiveFor(db.rows[i], userId);
    var k :| 0 <= k < |db.rows| && IsActiveFor(db.rows[k], userId)
           && GetUserPreferences(db, reader, userId).outcome
              == Ok(PreferencesBody(PreferencesModel(userId, db.rows[k].PreferredLanguage)));
    ActiveUnique(db.rows, k, i, userId);
  }

  /** Creating a preference and reading it back returns the language the
      create carried. */
  lemma ReadAfterCreate(db: Database, actor: Guid, model: PreferencesModel, editedAt: Instant, createdAt: Instant,
                        reader: Identity)
    requires Valid(db) && !HasActive(db.rows, model.UserId)
    requires reader.Identity? && (reader.elevatedRights || model.UserId == reader.actorId)
    ensures var db' := PostUserPreferences(db, Identity(actor, true), Some(model), editedAt, createdAt).db;
      GetUserPreferences(db', reader, model.UserId).outcome == Ok(PreferencesBody(model))
  {
    var req := Controller.Post(Identity(actor, true), Some(model), editedAt, createdAt);
    PostAppendsRecord(db, actor, model, editedAt, createdAt);
    DispatchKeepsValid(db, req);
    ReadFindsActive(Dispatch(db, req).db, reader, |db.rows|);
  }

  /** Updating a preference and reading it back returns the new language. */
  lemma ReadAfterUpdate(db: Database, id: Identity, userId: Guid, model: PutPreferencesModel, now: Instant,
                        reader: Identity)
    requires Valid(db) && HasActive(db.rows, userId)
    requires id.Identity? && (id.elevatedRights || userId == id.actorId)
    requires reader.Identity? && (reader.elevatedRights || userId == reader.actorId)
    ensures var db' := PutUserPreferences(db, id, userId, Some(model), now).db;
      GetUserPreferences(db', reader, userId).outcome == Ok(PreferencesBody(PreferencesModel(userId, model.Language)))
  {
    var req := Controller.Put(id, userId, Some(model), now);
    var i := PutRewritesActive(db, id, userId, model, now);
    DispatchKeepsValid(db, req);
    ReadFindsActive(Dispatch(db, req).db, reader, i);
  }

  /** Creating the same user twice: the second create answers 400 with the
      "user exists" token and changes nothing. */
  lemma CreateTwiceConflicts(db: Database, actor: Guid, model: PreferencesModel,
                             e1: Instant, c1: Instant, e2: Instant, c2: Instant)
    requires !HasActive(db.rows, model.UserId)
    ensures var db1 := PostUserPreferences(db, Identity(actor, true), Some(model), e1, c1).db;
      PostUserPreferences(db1, Identity(actor, true), Some(model), e2, c2) == Response(BadRequest(UserExists), db1)
  {
    PostAppendsRecord(db, actor, model, e1, c1);
    var rows1 := PostUserPreferences(db, Identity(actor, true), Some(model), e1, c1).db.rows;
    assert IsActiveFor(rows1[|db.rows|], model.UserId);
  }

  /** Appending an active record of a user who had none leaves exactly one. */
  lemma AppendActiveIsOnlyActive(rows: seq<Preference>, p: Preference, userId: Guid)
    requires !HasActive(rows, userId) && IsActiveFor(p, userId)
    ensures ExactlyOneActive(rows + [p], userId)
  {
    var r := rows + [p];
    assert IsActiveFor(r[|rows|], userId);
    assert forall k :: 0 <= k < |rows| ==> r[k] == rows[k];
  }

  /** After a successful create the table holds exactly one active record
      of the created user. */
  lemma CreateLeavesExactlyOne(db: Database, actor: Guid, model: PreferencesModel, editedAt: Instant, createdAt: Instant)
    requires !HasActive(db.rows, model.UserId)
    ensures ExactlyOneActive(PostUserPreferences(db, Identity(actor, true), Some(model), editedAt, createdAt).db.rows,
                             model.UserId)
  {
    PostAppendsRecord(db, actor, model, editedAt, createdAt);
    var rows1 := PostUserPreferences(db, Identity(actor, true), Some(model), editedAt, createdAt).db.rows;
    assert rows1 == db.rows + [rows1[|db.rows|]];
    AppendActiveIsOnlyActive(db.rows, rows1[|db.rows|], model.UserId);
  }

  /** The access rule of the four endpoints, as a table independent of
      their code: creating and deleting need elevated rights; reading and
      updating need elevated rights or the caller's own user. */
  predicate Permitted(req: Request)
    requires req.id.Identity?
  {
    match req
    case Post(id, _, _, _) => id.elevatedRights
    case Delete(id, _, _) => id.elevatedRights
    case Get(id, userId) => id.elevatedRights || userId == id.actorId
    case Put(id, userId, _, _) => id.elevatedRights || userId == id.actorId
  }

  /** The request carries a body that passed model validation, if it needs
      one. */
  predicate BodyPresent(req: Request) {
    match req
    case Post(_, body, _, _) => body.Some?
    case Put(_, _, body, _) => body.Some?
    case _ => true
  }

  /** For an authenticated caller with a well-formed body, a request is
      answered 403 exactly when the access rule refuses it. */
  lemma ForbiddenIffNotPermitted(db: Database, req: Request)
    requires req.id.Identity? && BodyPresent(req)
    ensures Dispatch(db, req).outcome == Forbidden <==> !Permitted(req)
  {
  }

  /** An unauthenticated request is answered 401, and only a 200 ever
      changes the table: every refusal comes before any change. */
  lemma OnlySuccessChangesTable(db: Database, req: Request)
    ensures req.id.InvalidIdentity? ==> Dispatch(db, req) == Response(Unauthorized, db)
    ensures Dispatch(db, req).db != db ==> Dispatch(db, req).outcome.Ok?
  {
  }

  /** First phase of the lifecycle: create, then read back. The table
      after it is valid and holds the user's active record. */
  lemma CreatePhase(db: Database, A: Identity, user: Guid, t1: Instant, t2: Instant) returns (db1: Database)
    requires Valid(db) && !HasActive(db.rows, user) && A.Identity? && A.elevatedRights
    ensures db1 == PostUserPreferences(db, A, Some(PreferencesModel(user, "GB")), t1, t2).db
    ensures PostUserPreferences(db, A, Some(PreferencesModel(user, "GB")), t1, t2).outcome == Ok(UserIdBody(user))
    ensures GetUserPreferences(db1, A, user).outcome == Ok(PreferencesBody(PreferencesModel(user, "GB")))
    ensures Valid(db1) && HasActive(db1.rows, user)
  {
    var model := PreferencesModel(user, "GB");
    db1 := PostUserPreferences(db, A, Some(model), t1, t2).db;
    PostAppendsRecord(db, A.actorId, model, t1, t2);
    ReadAfterCreate(db, A.actorId, model, t1, t2, A);
    DispatchKeepsValid(db, Controller.Post(A, Some(model), t1, t2));
    assert IsActiveFor(db1.rows[|db.rows|], user);
  }

  /** Second phase: update, then read back. */
  lemma UpdatePhase(db1: Database, A: Identity, user: Guid, t3: Instant) returns (db3: Database)
    requires Valid(db1) && HasActive(db1.rows, user) && A.Identity? && A.elevatedRights
    ensures db3 == PutUserPreferences(db1, A, user, Some(PutPreferencesModel("DK")), t3).db
    ensures PutUserPreferences(db1, A, user, Some(PutPreferencesModel("DK")), t3).outcome == Ok(Empty)
    ensures GetUserPreferences(db3, A, user).outcome == Ok(PreferencesBody(PreferencesModel(user, "DK")))
    ensures Valid(db3)
  {
    var update := PutPreferencesModel("DK");
    db3 := PutUserPreferences(db1, A, user, Some(update), t3).db;
    ReadAfterUpdate(db1, A, user, update, t3, A);
    DispatchKeepsValid(db1, Controller.Put(A, user, Some(update), t3));
  }

  /** The lifecycle of one preference as an administrator drives it:
      create with "GB", read, update to "DK", read, delete, read. */
  lemma Lifecycle(db: Database, admin: Guid, user: Guid, t1: Instant, t2: Instant, t3: Instant, t4: Instant)
    requires Valid(db) && !HasActive(db.rows, user)
    ensures var A := Identity(admin, true);
      var r1 := PostUserPreferences(db, A, Some(PreferencesModel(user, "GB")), t1, t2);
      var r2 := GetUserPreferences(r1.db, A, user);
      var r3 := PutUserPreferences(r2.db, A, user, Some(PutPreferencesModel("DK")), t3);
      var r4 := GetUserPreferences(r3.db, A, user);
      var r5 := DeleteUserPreferences(r4.db, A, user, t4);
      var r6 := GetUserPreferences(r5.db, A, user);
      && r1.outcome == Ok(UserIdBody(user))
      && r2.outcome == Ok(PreferencesBody(PreferencesModel(user, "GB")))
      && r3.outcome == Ok(Empty)
      && r4.outcome == Ok(PreferencesBody(PreferencesModel(user, "DK")))
      && r5.outcome == Ok(Empty)
      && r6.outcome == NotFound
  {
    var A := Identity(admin, true);
    var db1 := CreatePhase(db, A, user, t1, t2);
    var db3 := UpdatePhase(db1, A, user, t3);
    DeleteLeavesNoActive(db3, admin, user, t4);
  }

  /** A caller without elevated rights is refused reading another user,
      whether or not that user has a record. */
  lemma ReadOtherUserForbidden(db: Database, caller: Guid, other: Guid)
    requires caller != other
    ensures GetUserPreferences(db, Identity(caller, false), other) == Response(Forbidden, db)
  {
  }
}
