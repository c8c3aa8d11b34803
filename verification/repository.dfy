/** The data-access layer the service calls: a table of users keyed by id,
    with the usual save / findById / existsById / deleteById / findAll
    semantics. The persistence engine fills in what the entity's annotations
    ask for: a generated id for a new record and its two timestamps. */
module UserRepository {
  import opened Wrappers
  import opened UserEntity

  /** The table: one row per primary key. */
  type Store = map<Uuid, User>

  /** The primary key of a row is the id stored in that row. */
  ghost predicate WellFormed(store: Store)
  {
    forall k :: k in store ==> store[k].userId == Some(k)
  }

  /** One call the service issues on the repository; the sequence of such
      calls is what a mocked repository records. */
  datatype RepoCall =
    | SaveCall(user: User)
    | FindByIdCall(id: Uuid)
    | FindAllCall
    | ExistsByIdCall(id: Uuid)
    | DeleteByIdCall(id: Uuid)

  /** The table after a save together with the record as persisted. */
  datatype Saved = Saved(store: Store, user: User)

  /** A record with an id that equals the row stored under that id: merging
      it writes nothing. */
  predicate Unchanged(store: Store, u: User)
  {
    u.userId.Some? && u.userId.value in store && store[u.userId.value] == u
  }

  /** `save`: a record without an id is new, so it is inserted under the
      generated id `freshId` with both timestamps set to `now`. A record with
      an id is merged into the row at that id: when it equals the stored row
      nothing is written and the row keeps its update timestamp; otherwise
      the row is overwritten and its update timestamp refreshed to `now`.
      No other row changes. */
  function Save(store: Store, u: User, freshId: Uuid, now: Instant): (r: Saved)
    requires u.userId.None? ==> freshId !in store
    ensures r.user.userId.Some?
    ensures u.userId.Some? ==> r.user.userId == u.userId
    ensures u.userId.None? ==> r.user.userId == Some(freshId) && r.user.userId.value !in store
    ensures r.user.username == u.username && r.user.email == u.email
    ensures r.user.password == u.password
    ensures u.userId.None? ==> r.user.creationTimestamp == Some(now)
    ensures u.userId.Some? ==> r.user.creationTimestamp == u.creationTimestamp
    ensures Unchanged(store, u) ==> r.user == u && r.store == store
    ensures !Unchanged(store, u) ==> r.user.updateTimestamp == Some(now)
    ensures r.store.Keys == store.Keys + {r.user.userId.value}
    ensures r.store[r.user.userId.value] == r.user
    ensures forall k :: k in store && k != r.user.userId.value ==> r.store[k] == store[k]
    ensures WellFormed(store) ==> WellFormed(r.store)
  {
    match u.userId
    case None =>
      var row := u.SetUserId(Some(freshId)).SetCreationTimestamp(Some(now)).SetUpdateTimestamp(Some(now));
      Saved(store[freshId := row], row)
    case Some(id) =>
      if Unchanged(store, u) then Saved(store, u)
      else
        var row := u.SetUpdateTimestamp(Some(now));
        Saved(store[id := row], row)
  }

  /** `findById`: the row under `id`, or empty when there is none. */
  function FindById(store: Store, id: Uuid): (r: Option<User>)
    ensures r.Some? <==> id in store
    ensures r.Some? ==> r.value == store[id]
  {
    if id in store then Some(store[id]) else None
  }

  /** `existsById`: whether a row is stored under `id`. */
  function ExistsById(store: Store, id: Uuid): (r: bool)
    ensures r <==> FindById(store, id).Some?
  {
    id in store
  }

  /** `deleteById`: the row under `id` is gone, every other row stays. */
  function DeleteById(store: Store, id: Uuid): (r: Store)
    ensures id !in r
    ensures r.Keys == store.Keys - {id}
    ensures forall k :: k in r ==> r[k] == store[k]
    ensures WellFormed(store) ==> WellFormed(r)
  {
    store - {id}
  }

  /** `findAll`: every stored row, once per key, in no particular order. */
  method FindAll(store: Store) returns (users: seq<User>)
    ensures |users| == |store|
    ensures forall i :: 0 <= i < |users| ==> users[i] in store.Values
    ensures forall k :: k in store ==> store[k] in users
    ensures WellFormed(store) ==>
      forall i, j :: 0 <= i < j < |users| ==> users[i] != users[j]
  {
    var rest := store.Keys;
    users := [];
    ghost var ids: seq<Uuid> := [];
    while rest != {}
      invariant rest <= store.Keys
      invariant |ids| == |users|
      invariant |users| + |rest| == |store|
      invariant forall i :: 0 <= i < |ids| ==> ids[i] in store && users[i] == store[ids[i]]
      invariant forall i :: 0 <= i < |ids| ==> ids[i] !in rest
      invariant forall i, j :: 0 <= i < j < |ids| ==> ids[i] != ids[j]
      invariant forall k :: k in store && k !in rest ==> k in ids
      decreases rest
    {
      var k :| k in rest;
      users := users + [store[k]];
      ids := ids + [k];
      rest := rest - {k};
    }
    forall k | k in store
      ensures store[k] in users
    {
      var i :| 0 <= i < |ids| && ids[i] == k;
      assert users[i] == store[k];
    }
  }
}
