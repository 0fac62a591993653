/** Record construction and mutation (User.Domain/Services/UserService.cs). */
module Service {
  import opened Wrappers
  import opened Entities
  import opened Models
  import Repository

  /** Looks up a user's record with the lookup's default flag, so only an
      active record can come back. */
  function GetUserPreference(ctx: Repository.Context, userId: Guid): (r: Option<Preference>)
    ensures r.Some? ==> IsActiveFor(r.value, userId) && r.value in ctx.db.rows
    ensures r.None? <==> !HasActive(ctx.db.rows, userId)
  {
    Repository.GetUserPreference(ctx, userId)
  }

  /** The record a create builds. The clock is read twice, first for
      EditedOn and then for CreatedOn; the identity column starts at zero. */
  function NewPreference(model: PreferencesModel, authorizedUserId: Guid, editedAt: Instant, createdAt: Instant): Preference {
    Preference(
      Id := 0,
      UserId := model.UserId,
      PreferredLanguage := model.Language,
      Deleted := false,
      CreatedBy := authorizedUserId,
      CreatedOn := createdAt,
      EditedBy := authorizedUserId,
      EditedOn := editedAt)
  }

  /** Hands a new active record for the model's user to the repository; it
      stays pending until the transaction completes. */
  function PostUserPreference(ctx: Repository.Context, model: PreferencesModel, authorizedUserId: Guid,
                              editedAt: Instant, createdAt: Instant): (r: Repository.Context)
    ensures r.db == ctx.db
    ensures |r.pending| == |ctx.pending| + 1 && r.pending[..|ctx.pending|] == ctx.pending
    ensures r.pending[|ctx.pending|].Added?
    ensures var p := r.pending[|ctx.pending|].record;
      && p.UserId == model.UserId && p.PreferredLanguage == model.Language && !p.Deleted
      && p.CreatedBy == authorizedUserId && p.EditedBy == authorizedUserId
      && p.EditedOn == editedAt && p.CreatedOn == createdAt
  {
    Repository.PostUserPreference(ctx, Some(NewPreference(model, authorizedUserId, editedAt, createdAt))).value
  }

  /** An update: the language and the edit stamp change, nothing else. */
  function PutUserPreference(preference: Preference, model: PutPreferencesModel, authorizedUserId: Guid, now: Instant): (r: Preference)
    ensures r.PreferredLanguage == model.Language && r.EditedBy == authorizedUserId && r.EditedOn == now
    ensures r.Id == preference.Id && r.UserId == preference.UserId && r.Deleted == preference.Deleted
    ensures r.CreatedBy == preference.CreatedBy && r.CreatedOn == preference.CreatedOn
  {
    preference.(PreferredLanguage := model.Language, EditedBy := authorizedUserId, EditedOn := now)
  }

  /** A soft delete: the flag is raised and the edit stamp changes; the
      language, the owner and the creation stamp stay. */
  function DeleteUserPreference(preference: Preference, authorizedUserId: Guid, now: Instant): (r: Preference)
    ensures r.Deleted && r.EditedBy == authorizedUserId && r.EditedOn == now
    ensures r.Id == preference.Id && r.UserId == preference.UserId && r.PreferredLanguage == preference.PreferredLanguage
    ensures r.CreatedBy == preference.CreatedBy && r.CreatedOn == preference.CreatedOn
  {
    preference.(EditedBy := authorizedUserId, EditedOn := now, Deleted := true)
  }

  /** Commits the unit of work; nothing is left pending. */
  function CompleteTransaction(ctx: Repository.Context): (r: Repository.Context)
    ensures r.pending == []
    ensures |r.db.rows| == |ctx.db.rows| + Repository.AddedCount(ctx.pending)
  {
    Repository.CompleteTransaction(ctx)
  }

  /** Updates overwrite each other: of two updates in a row only the second
      is visible. */
  lemma PutLastWriteWins(p: Preference, m1: PutPreferencesModel, a1: Guid, t1: Instant,
                         m2: PutPreferencesModel, a2: Guid, t2: Instant)
    ensures PutUserPreference(PutUserPreference(p, m1, a1, t1), m2, a2, t2) == PutUserPreference(p, m2, a2, t2)
  {
  }

  /** Soft-deleting an already deleted record keeps it deleted; the result
      is a single delete carrying the second edit stamp. */
  lemma DeleteIdempotent(p: Preference, a1: Guid, t1: Instant, a2: Guid, t2: Instant)
    ensures DeleteUserPreference(DeleteUserPreference(p, a1, t1), a2, t2) == DeleteUserPreference(p, a2, t2)
    ensures DeleteUserPreference(DeleteUserPreference(p, a1, t1), a2, t2).Deleted
  {
  }

  /** A soft delete does not change what the projection shows. */
  lemma DeleteKeepsProjection(p: Preference, a: Guid, t: Instant)
    ensures ToPreferencesModel(Some(DeleteUserPreference(p, a, t))) == ToPreferencesModel(Some(p))
  {
  }
}
