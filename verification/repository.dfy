/** The single-table store (User.DataAccess/Repositories/UserRepository.cs)
    together with the unit of work its database context provides: a lookup
    over committed rows, an add that stays pending, and a commit. */
module Repository {
  import opened Wrappers
  import opened Entities

  /** The committed Preferences table and the next identity value. */
  datatype Database = Database(rows: seq<Preference>, nextId: nat)

  /** A change the unit of work records and applies on commit. */
  datatype Change =
    | Added(record: Preference)     // an entity handed to Add
    | Modified(record: Preference)  // a tracked entity whose fields were assigned

  /** The unit of work of one request over the database. */
  datatype Context = Context(db: Database, pending: seq<Change>)

  /** The exception Add throws for a null entity. */
  datatype RepositoryError = ArgumentNull(paramName: string)

  /** The scoped context a request starts with: nothing pending. */
  function Open(db: Database): Context {
    Context(db, [])
  }

  /** The filter of the lookup query. */
  predicate Matches(p: Preference, userId: Guid, deleted: bool) {
    p.UserId == userId && p.Deleted == deleted
  }

  /** The position of the first row the lookup filter accepts. */
  function FirstIndex(rows: seq<Preference>, userId: Guid, deleted: bool): (r: Option<nat>)
    ensures r.Some? ==> r.value < |rows| && Matches(rows[r.value], userId, deleted)
    ensures r.Some? ==> forall j :: 0 <= j < r.value ==> !Matches(rows[j], userId, deleted)
    ensures r.None? ==> forall j :: 0 <= j < |rows| ==> !Matches(rows[j], userId, deleted)
    decreases |rows|
  {
    if |rows| == 0 then None
    else if Matches(rows[0], userId, deleted) then Some(0)
    else
      match FirstIndex(rows[1..], userId, deleted)
      case None => None
      case Some(k) => Some(k + 1)
  }

  /** The first committed record of `userId` whose soft-delete flag equals
      `deleted`, or none; the flag defaults to active records only. */
  function GetUserPreference(ctx: Context, userId: Guid, deleted: bool := false): (r: Option<Preference>)
    ensures r.Some? ==> r.value.UserId == userId && r.value.Deleted == deleted
    ensures r.None? <==> forall i :: 0 <= i < |ctx.db.rows| ==> !Matches(ctx.db.rows[i], userId, deleted)
    ensures r.Some? ==> exists i :: 0 <= i < |ctx.db.rows| && ctx.db.rows[i] == r.value
                                 && forall j :: 0 <= j < i ==> !Matches(ctx.db.rows[j], userId, deleted)
  {
    match FirstIndex(ctx.db.rows, userId, deleted)
    case None => None
    case Some(i) => Some(ctx.db.rows[i])
  }

  /** Adds a new entity to the unit of work; a null entity is refused. */
  function PostUserPreference(ctx: Context, preferences: Option<Preference>): (r: Result<Context, RepositoryError>)
    ensures preferences.None? <==> r.Failure?
    ensures r.Failure? ==> r.error == ArgumentNull("preferences")
    ensures r.Success? ==> r.value.db == ctx.db
    ensures r.Success? ==> r.value.pending == ctx.pending + [Added(preferences.value)]
  {
    match preferences
    case None => Failure(ArgumentNull("preferences"))
    case Some(p) => Success(Context(ctx.db, ctx.pending + [Added(p)]))
  }

  /** The change tracker noticing that a tracked entity now holds `p`. */
  function Track(ctx: Context, p: Preference): Context {
    Context(ctx.db, ctx.pending + [Modified(p)])
  }

  /** Writes `p` over the row carrying its key, as an UPDATE by Id does. */
  function Replace(rows: seq<Preference>, p: Preference): (r: seq<Preference>)
    ensures |r| == |rows|
    ensures forall i :: 0 <= i < |rows| ==> r[i].Id == rows[i].Id
  {
    seq(|rows|, i requires 0 <= i < |rows| => if rows[i].Id == p.Id then p else rows[i])
  }

  /** How many of `changes` insert a row. */
  function AddedCount(changes: seq<Change>): nat {
    if |changes| == 0 then 0
    else (if changes[0].Added? then 1 else 0) + AddedCount(changes[1..])
  }

  /** Applies `changes` in order: an insert takes the next identity value. */
  function Apply(db: Database, changes: seq<Change>): (r: Database)
    ensures |r.rows| == |db.rows| + AddedCount(changes)
    ensures r.nextId == db.nextId + AddedCount(changes)
    ensures forall i :: 0 <= i < |db.rows| ==> r.rows[i].Id == db.rows[i].Id
    ensures forall i :: |db.rows| <= i < |r.rows| ==> r.rows[i].Id == db.nextId + (i - |db.rows|)
    decreases |changes|
  {
    if |changes| == 0 then db
    else
      match changes[0]
      case Added(p) => Apply(Database(db.rows + [p.(Id := db.nextId)], db.nextId + 1), changes[1..])
      case Modified(p) => Apply(Database(Replace(db.rows, p), db.nextId), changes[1..])
  }

  /** SaveChanges: the pending changes become part of the table. */
  function CompleteTransaction(ctx: Context): (r: Context)
    ensures r.pending == []
    ensures |r.db.rows| == |ctx.db.rows| + AddedCount(ctx.pending)
    ensures r.db.nextId == ctx.db.nextId + AddedCount(ctx.pending)
    ensures forall i :: 0 <= i < |ctx.db.rows| ==> r.db.rows[i].Id == ctx.db.rows[i].Id
  {
    Context(Apply(ctx.db, ctx.pending), [])
  }

  /** The rows a run of inserts produces, numbered from `nextId`. */
  function Numbered(changes: seq<Change>, nextId: nat): seq<Preference>
    requires forall k :: 0 <= k < |changes| ==> changes[k].Added?
    decreases |changes|
  {
    if |changes| == 0 then []
    else [changes[0].record.(Id := nextId)] + Numbered(changes[1..], nextId + 1)
  }

  /** Committing only inserts appends exactly the added records, in order,
      each with the identity value it was given, and keeps every old row. */
  lemma {:induction false} CommitAppendsAdditions(ctx: Context)
    requires forall k :: 0 <= k < |ctx.pending| ==> ctx.pending[k].Added?
    ensures CompleteTransaction(ctx).db.rows == ctx.db.rows + Numbered(ctx.pending, ctx.db.nextId)
    ensures CompleteTransaction(ctx).db.nextId == ctx.db.nextId + |ctx.pending|
  {
    ApplyAdditions(ctx.db, ctx.pending);
  }

  lemma {:induction false} ApplyAdditions(db: Database, changes: seq<Change>)
    requires forall k :: 0 <= k < |changes| ==> changes[k].Added?
    ensures Apply(db, changes) == Database(db.rows + Numbered(changes, db.nextId), db.nextId + |changes|)
    decreases |changes|
  {
    if |changes| > 0 {
      var p := changes[0].record;
      var db' := Database(db.rows + [p.(Id := db.nextId)], db.nextId + 1);
      ApplyAdditions(db', changes[1..]);
      assert db.rows + [p.(Id := db.nextId)] + Numbered(changes[1..], db.nextId + 1)
          == db.rows + Numbered(changes, db.nextId);
    }
  }

  /** Committing one change of a tracked entity rewrites exactly its row,
      when the identity column is a key. */
  lemma CommitModifiedInPlace(ctx: Context, i: nat, p: Preference)
    requires UniqueIds(ctx.db.rows)
    requires i < |ctx.db.rows| && ctx.db.rows[i].Id == p.Id
    requires ctx.pending == [Modified(p)]
    ensures CompleteTransaction(ctx).db == Database(ctx.db.rows[i := p], ctx.db.nextId)
  {
    var rows := ctx.db.rows;
    assert Apply(ctx.db, ctx.pending) == Apply(Database(Replace(rows, p), ctx.db.nextId), []);
    assert Replace(rows, p) == rows[i := p];
  }

  /** A commit with nothing pending leaves the table as it was, so a second
      commit after the first changes nothing. */
  lemma CommitIdempotent(ctx: Context)
    ensures CompleteTransaction(Context(ctx.db, [])).db == ctx.db
    ensures CompleteTransaction(CompleteTransaction(ctx)) == CompleteTransaction(ctx)
  {
  }

  /** The two values of the flag split a user's rows: both lookups come back
      empty exactly when the table holds no row at all for the user. */
  lemma LookupFlagsCoverUser(ctx: Context, userId: Guid)
    ensures (GetUserPreference(ctx, userId, false).None? && GetUserPreference(ctx, userId, true).None?)
        <==> forall i :: 0 <= i < |ctx.db.rows| ==> ctx.db.rows[i].UserId != userId
  {
  }
}
