/** The API shapes of a preference (User.Domain/Models/PreferencesModel.cs)
    and the explicit projection of a stored record onto them. */
module Models {
  import opened Wrappers
  import opened Entities

  /** Body of a create request, and the body a read returns. */
  datatype PreferencesModel = PreferencesModel(UserId: Guid, Language: string)

  /** Body of an update request. */
  datatype PutPreferencesModel = PutPreferencesModel(Language: string)

  /** The conversion operator: a record is shown by its user and language;
      no record is shown as nothing. */
  function ToPreferencesModel(item: Option<Preference>): (r: Option<PreferencesModel>)
    ensures r.None? <==> item.None?
    ensures item.Some? ==> r.value.UserId == item.value.UserId
    ensures item.Some? ==> r.value.Language == item.value.PreferredLanguage
  {
    match item
    case None => None
    case Some(p) => Some(PreferencesModel(p.UserId, p.PreferredLanguage))
  }

  /** The projection exposes exactly the user and the language: two records
      look the same through it if and only if they agree on those two fields,
      whatever their Id, soft-delete flag and audit fields. */
  lemma ProjectionShowsOnlyUserAndLanguage(a: Preference, b: Preference)
    ensures ToPreferencesModel(Some(a)) == ToPreferencesModel(Some(b))
        <==> a.UserId == b.UserId && a.PreferredLanguage == b.PreferredLanguage
  {
  }
}
