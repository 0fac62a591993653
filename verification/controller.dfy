/** The four endpoints (User.Service/Controllers/UserController.cs): who may
    do what, and how lookups and changes map to responses. Each request runs
    against its own unit of work over the committed table. */
module Controller {
  import opened Wrappers
  import opened Entities
  import opened Models
  import opened Repository
  import Service

  /** The caller as authentication leaves it: the parsed "userId" and
      "ElevatedRights" claims, or a rejected credential. */
  datatype Identity = Identity(actorId: Guid, elevatedRights: bool) | InvalidIdentity

  /** Why a request is answered 400: the "user exists" token, or a body the
      model validation rejected. */
  datatype BadReason = UserExists | InvalidModel

  datatype Body = Empty | UserIdBody(userId: Guid) | PreferencesBody(model: PreferencesModel)

  /** 200, 400, 401, 403 and 404 in that order. */
  datatype Outcome = Ok(body: Body) | BadRequest(reason: BadReason) | Unauthorized | Forbidden | NotFound

  /** The answer to a request and the table after it. */
  datatype Response = Response(outcome: Outcome, db: Database)

  /** The "Administrator" policy: the ElevatedRights claim is "True". */
  predicate AdministratorPolicy(id: Identity)
    requires id.Identity?
  {
    id.elevatedRights
  }

  /** POST v1/user. Authentication, then the Administrator policy, then
      model validation (`body` is None when it fails), then the action: a
      create conflicts with an active record only. */
  function PostUserPreferences(db: Database, id: Identity, body: Option<PreferencesModel>,
                               editedAt: Instant, createdAt: Instant): (r: Response)
    ensures id.InvalidIdentity? ==> r == Response(Unauthorized, db)
    ensures id.Identity? && !id.elevatedRights ==> r == Response(Forbidden, db)
    ensures id.Identity? && id.elevatedRights && body.None? ==> r == Response(BadRequest(InvalidModel), db)
    ensures id.Identity? && id.elevatedRights && body.Some? && HasActive(db.rows, body.value.UserId)
      ==> r == Response(BadRequest(UserExists), db)
    ensures id.Identity? && id.elevatedRights && body.Some? && !HasActive(db.rows, body.value.UserId)
      ==> r.outcome == Ok(UserIdBody(body.value.UserId)) && |r.db.rows| == |db.rows| + 1
  {
    match id
    case InvalidIdentity => Response(Unauthorized, db)
    case Identity(authorizedUserId, _) =>
      if !AdministratorPolicy(id) then Response(Forbidden, db)
      else if body.None? then Response(BadRequest(InvalidModel), db)
      else
        var model := body.value;
        var ctx := Open(db);
        var preference := Service.GetUserPreference(ctx, model.UserId);
        if preference.Some? then Response(BadRequest(UserExists), db)
        else
          var ctx' := Service.PostUserPreference(ctx, model, authorizedUserId, editedAt, createdAt);
          Response(Ok(UserIdBody(model.UserId)), Service.CompleteTransaction(ctx').db)
  }

  /** GET v1/user/{userId}. A caller without elevated rights may read only
      their own record; the check comes before the lookup. */
  function GetUserPreferences(db: Database, id: Identity, userId: Guid): (r: Response)
    ensures r.db == db
    ensures id.InvalidIdentity? ==> r.outcome == Unauthorized
    ensures id.Identity? && !id.elevatedRights && userId != id.actorId ==> r.outcome == Forbidden
    ensures id.Identity? && (id.elevatedRights || userId == id.actorId) && !HasActive(db.rows, userId)
      ==> r.outcome == NotFound
    ensures id.Identity? && (id.elevatedRights || userId == id.actorId) && HasActive(db.rows, userId)
      ==> exists i :: 0 <= i < |db.rows| && IsActiveFor(db.rows[i], userId)
                   && r.outcome == Ok(PreferencesBody(PreferencesModel(userId, db.rows[i].PreferredLanguage)))
  {
    match id
    case InvalidIdentity => Response(Unauthorized, db)
    case Identity(authorizedUserId, elevatedRights) =>
      if !elevatedRights && userId != authorizedUserId then Response(Forbidden, db)
      else
        var preference := Service.GetUserPreference(Open(db), userId);
        if preference.None? then Response(NotFound, db)
        else Response(Ok(PreferencesBody(ToPreferencesModel(preference).value)), db)
  }

  /** PUT v1/user/{userId}. Model validation runs before the action; inside
      it the caller check precedes the lookup, and only an active record is
      updated. */
  function PutUserPreferences(db: Database, id: Identity, userId: Guid, body: Option<PutPreferencesModel>,
                              now: Instant): (r: Response)
    ensures id.InvalidIdentity? ==> r == Response(Unauthorized, db)
    ensures id.Identity? && body.None? ==> r == Response(BadRequest(InvalidModel), db)
    ensures id.Identity? && body.Some? && !id.elevatedRights && userId != id.actorId
      ==> r == Response(Forbidden, db)
    ensures id.Identity? && body.Some? && (id.elevatedRights || userId == id.actorId) && !HasActive(db.rows, userId)
      ==> r == Response(NotFound, db)
    ensures id.Identity? && body.Some? && (id.elevatedRights || userId == id.actorId) && HasActive(db.rows, userId)
      ==> r.outcome == Ok(Empty) && |r.db.rows| == |db.rows| && r.db.nextId == db.nextId
  {
    match id
    case InvalidIdentity => Response(Unauthorized, db)
    case Identity(authorizedUserId, elevatedRights) =>
      if body.None? then Response(BadRequest(InvalidModel), db)
      else if !elevatedRights && userId != authorizedUserId then Response(Forbidden, db)
      else
        var ctx := Open(db);
        var preference := Service.GetUserPreference(ctx, userId);
        if preference.None? then Response(NotFound, db)
        else
          var updated := Service.PutUserPreference(preference.value, body.value, authorizedUserId, now);
          Response(Ok(Empty), Service.CompleteTransaction(Track(ctx, updated)).db)
  }

  /** DELETE v1/user/{userId}. Administrator policy; deleting a user with no
      active record succeeds and changes nothing. */
  function DeleteUserPreferences(db: Database, id: Identity, userId: Guid, now: Instant): (r: Response)
    ensures id.InvalidIdentity? ==> r == Response(Unauthorized, db)
    ensures id.Identity? && !id.elevatedRights ==> r == Response(Forbidden, db)
    ensures id.Identity? && id.elevatedRights ==> r.outcome == Ok(Empty)
    ensures id.Identity? && id.elevatedRights && !HasActive(db.rows, userId) ==> r.db == db
    ensures id.Identity? && id.elevatedRights && HasActive(db.rows, userId)
      ==> |r.db.rows| == |db.rows| && r.db.nextId == db.nextId
  {
    match id
    case InvalidIdentity => Response(Unauthorized, db)
    case Identity(authorizedUserId, _) =>
      if !AdministratorPolicy(id) then Response(Forbidden, db)
      else
        var ctx := Open(db);
        var preference := Service.GetUserPreference(ctx, userId);
        if preference.None? then Response(Ok(Empty), db)
        else
          var deleted := Service.DeleteUserPreference(preference.value, authorizedUserId, now);
          Response(Ok(Empty), Service.CompleteTransaction(Track(ctx, deleted)).db)
  }

  /** The Administrator policy alone decides the 403 of create and delete:
      body, target and table play no part in it. */
  lemma AdministratorPolicyGatesCreateAndDelete(db: Database, id: Identity, body: Option<PreferencesModel>,
                                                editedAt: Instant, createdAt: Instant, userId: Guid, now: Instant)
    requires id.Identity?
    ensures PostUserPreferences(db, id, body, editedAt, createdAt).outcome == Forbidden <==> !AdministratorPolicy(id)
    ensures DeleteUserPreferences(db, id, userId, now).outcome == Forbidden <==> !AdministratorPolicy(id)
  {
  }

  /** A request as routed to one of the four endpoints. */
  datatype Request =
    | Post(id: Identity, body: Option<PreferencesModel>, editedAt: Instant, createdAt: Instant)
    | Get(id: Identity, userId: Guid)
    | Put(id: Identity, userId: Guid, putBody: Option<PutPreferencesModel>, now: Instant)
    | Delete(id: Identity, userId: Guid, now: Instant)

  /** Routes a request to its endpoint. */
  function Dispatch(db: Database, req: Request): Response {
    match req
    case Post(id, body, editedAt, createdAt) => PostUserPreferences(db, id, body, editedAt, createdAt)
    case Get(id, userId) => GetUserPreferences(db, id, userId)
    case Put(id, userId, body, now) => PutUserPreferences(db, id, userId, body, now)
    case Delete(id, userId, now) => DeleteUserPreferences(db, id, userId, now)
  }

  /** The table after handling `reqs` one after the other. */
  function Run(db: Database, reqs: seq<Request>): Database
    decreases |reqs|
  {
    if |reqs| == 0 then db else Run(Dispatch(db, reqs[0]).db, reqs[1..])
  }
}
