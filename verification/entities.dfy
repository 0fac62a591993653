/** The stored preference record (User.DataAccess/Entities/Preference.cs). */
module Entities {

  /** A Guid. The model only ever compares Guids for equality, so any
      infinite type with equality serves; naturals keep examples concrete. */
  type Guid = nat

  /** A reading of the wall clock (DateTimeOffset.Now). */
  type Instant = nat

  /** One row of the UserPreference.Preferences table. `Id` is the identity
      column the database assigns when the row is first saved. */
  datatype Preference = Preference(
    Id: nat,
    UserId: Guid,
    PreferredLanguage: string,
    Deleted: bool,
    CreatedBy: Guid,
    CreatedOn: Instant,
    EditedBy: Guid,
    EditedOn: Instant)

  /** `p` is the active (not soft-deleted) record of `userId`. */
  predicate IsActiveFor(p: Preference, userId: Guid) {
    p.UserId == userId && !p.Deleted
  }

  /** Some row of `rows` is the active record of `userId`. */
  predicate HasActive(rows: seq<Preference>, userId: Guid) {
    exists i :: 0 <= i < |rows| && IsActiveFor(rows[i], userId)
  }

  /** No two rows share a value of the identity column. */
  ghost predicate UniqueIds(rows: seq<Preference>) {
    forall i, j :: 0 <= i < j < |rows| ==> rows[i].Id != rows[j].Id
  }
}
