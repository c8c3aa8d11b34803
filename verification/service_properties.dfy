/** Properties that relate several service calls: round trips between
    create, get and delete, idempotence of update and delete, and what a
    sequence of create, update and delete requests can and cannot change. */
module UserServiceProperties {
  import opened Wrappers
  import opened UserEntity
  import opened UserRepository
  import opened UserService

  /** A created record is found again by its returned id, with the request's
      fields, and the list grows by exactly that row. */
  lemma CreateThenGet(store: Store, dto: CreateUserDto, freshId: Uuid, now: Instant,
                      parse: string -> Option<Uuid>, idText: string)
    requires freshId !in store
    requires parse(idText) == Some(CreateUser(store, dto, freshId, now).result.value)
    ensures var created := CreateUser(store, dto, freshId, now).store;
      var found := GetUserById(created, parse, idText).result;
      && found.Success? && found.value.Some?
      && found.value.value.userId == Some(freshId)
      && found.value.value.username == dto.username
      && found.value.value.email == dto.email
      && found.value.value.password == dto.password
      && |created| == |store| + 1
  {
  }

  /** Deleting the id a create returned gives back the table as it was. */
  lemma DeleteUndoesCreate(store: Store, dto: CreateUserDto, freshId: Uuid, now: Instant,
                           parse: string -> Option<Uuid>, idText: string)
    requires freshId !in store
    requires parse(idText) == Some(freshId)
    ensures DeleteUserById(CreateUser(store, dto, freshId, now).store, parse, idText).store == store
  {
  }

  /** After a delete the id is not found; deleting again changes nothing and
      issues no further repository delete. */
  lemma DeleteIdempotent(store: Store, parse: string -> Option<Uuid>, idText: string)
    requires parse(idText).Some?
    ensures var once := DeleteUserById(store, parse, idText).store;
      && GetUserById(once, parse, idText).result == Success(None)
      && DeleteUserById(once, parse, idText).store == once
      && DeleteUserById(once, parse, idText).calls == [ExistsByIdCall(parse(idText).value)]
  {
  }

  /** A delete issues a repository delete exactly when a get of the same
      id would find a record. */
  lemma DeleteIssuesDeleteIffFound(store: Store, parse: string -> Option<Uuid>, idText: string)
    requires parse(idText).Some?
    ensures DeleteByIdCall(parse(idText).value) in DeleteUserById(store, parse, idText).calls
        <==> GetUserById(store, parse, idText).result.value.Some?
  {
  }

  /** Repeating an update with the same request and clock leaves the table
      as the first update left it. */
  lemma UpdateIdempotent(store: Store, parse: string -> Option<Uuid>, idText: string,
                         dto: UpdateUserDto, now: Instant)
    requires WellFormed(store)
    ensures var once := UpdateUserById(store, parse, idText, dto, now).store;
      UpdateUserById(once, parse, idText, dto, now).store == once
  {
  }

  /** An update with neither field set still issues a save, but the save
      merges an unchanged record, so nothing is written: the table, update
      timestamp included, stays as it was. */
  lemma EmptyUpdateKeepsContent(store: Store, parse: string -> Option<Uuid>, idText: string, now: Instant)
    requires WellFormed(store)
    requires parse(idText).Some? && parse(idText).value in store
    ensures var o := UpdateUserById(store, parse, idText, UpdateUserDto(None, None), now);
      o.store == store && SaveCall(store[parse(idText).value]) in o.calls
  {
  }

  /** One request to the service that can change the table. */
  datatype Mutation =
    | CreateRequest(user: CreateUserDto, freshId: Uuid, now: Instant)
    | UpdateRequest(idText: string, patch: UpdateUserDto, now: Instant)
    | DeleteRequest(idText: string)

  /** Whether request `m` is about the row under `k`: a create that is given
      `k` as its generated id, or an update or delete whose text parses to `k`. */
  function Names(parse: string -> Option<Uuid>, m: Mutation, k: Uuid): bool
  {
    match m
    case CreateRequest(_, id, _) => id == k
    case UpdateRequest(t, _, _) => parse(t) == Some(k)
    case DeleteRequest(t) => parse(t) == Some(k)
  }

  /** The ids the creates of `ms` are given. */
  ghost function CreatedIds(ms: seq<Mutation>): set<Uuid>
  {
    set i | 0 <= i < |ms| && ms[i].CreateRequest? :: ms[i].freshId
  }

  /** The generated ids of a sequence's creates are new: none is a key of the
      starting table and no two creates are given the same id. */
  ghost predicate FreshIds(store: Store, ms: seq<Mutation>)
  {
    && (forall i :: 0 <= i < |ms| && ms[i].CreateRequest? ==> ms[i].freshId !in store)
    && (forall i, j :: 0 <= i < j < |ms| && ms[i].CreateRequest? && ms[j].CreateRequest? ==>
          ms[i].freshId != ms[j].freshId)
  }

  /** The table after one request; a request that throws leaves it as it was. */
  function Apply(store: Store, parse: string -> Option<Uuid>, m: Mutation): (r: Store)
    requires WellFormed(store)
    requires m.CreateRequest? ==> m.freshId !in store
    ensures WellFormed(r)
    ensures m.CreateRequest? ==> r.Keys == store.Keys + {m.freshId}
    ensures !m.CreateRequest? ==> r.Keys <= store.Keys
  {
    match m
    case CreateRequest(dto, id, now) => CreateUser(store, dto, id, now).store
    case UpdateRequest(t, dto, now) => UpdateUserById(store, parse, t, dto, now).store
    case DeleteRequest(t) => DeleteUserById(store, parse, t).store
  }

  /** The table after a sequence of requests, handled one after another. */
  function Run(store: Store, parse: string -> Option<Uuid>, ms: seq<Mutation>): (r: Store)
    requires WellFormed(store)
    requires FreshIds(store, ms)
    ensures WellFormed(r)
    ensures r.Keys <= store.Keys + CreatedIds(ms)
    decreases |ms|
  {
    if |ms| == 0 then store
    else
      var next := Apply(store, parse, ms[0]);
      assert FreshIds(next, ms[1..]) by { FreshIdsStep(store, parse, ms); }
      Run(next, parse, ms[1..])
  }

  /** Freshness survives handling the first request of the sequence. */
  lemma FreshIdsStep(store: Store, parse: string -> Option<Uuid>, ms: seq<Mutation>)
    requires WellFormed(store) && FreshIds(store, ms) && |ms| > 0
    ensures FreshIds(Apply(store, parse, ms[0]), ms[1..])
  {
  }

  /** One request keeps the id, email and creation timestamp of every row
      it leaves in place. */
  lemma ApplyKeepsIdentity(store: Store, parse: string -> Option<Uuid>, m: Mutation, k: Uuid)
    requires WellFormed(store)
    requires m.CreateRequest? ==> m.freshId !in store
    requires k in store && k in Apply(store, parse, m)
    ensures var next := Apply(store, parse, m);
      && next[k].userId == store[k].userId
      && next[k].email == store[k].email
      && next[k].creationTimestamp == store[k].creationTimestamp
  {
  }

  /** A row of the starting table that is there at the end of a sequence was
      there after its first request too: no later create reuses its key. */
  lemma SurvivorSurvivesFirstStep(store: Store, parse: string -> Option<Uuid>, ms: seq<Mutation>, k: Uuid)
    requires WellFormed(store) && FreshIds(store, ms) && |ms| > 0
    requires k in store && k in Run(store, parse, ms)
    ensures k in Apply(store, parse, ms[0])
  {
    FreshIdsStep(store, parse, ms);
  }

  /** Every row of `before` that is still in `after` has kept its id, email
      and creation timestamp. */
  ghost predicate KeepsIdentity(before: Store, after: Store)
  {
    forall k :: k in after && k in before ==>
      && after[k].userId == before[k].userId
      && after[k].email == before[k].email
      && after[k].creationTimestamp == before[k].creationTimestamp
  }

  /** No sequence of requests changes the id, email or creation timestamp of
      a row that was there before and is still there after. */
  lemma {:induction false} RunKeepsIdentity(store: Store, parse: string -> Option<Uuid>, ms: seq<Mutation>)
    requires WellFormed(store)
    requires FreshIds(store, ms)
    ensures KeepsIdentity(store, Run(store, parse, ms))
    decreases |ms|
  {
    if |ms| > 0 {
      var next := Apply(store, parse, ms[0]);
      FreshIdsStep(store, parse, ms);
      RunKeepsIdentity(next, parse, ms[1..]);
      var r := Run(store, parse, ms);
      assert r == Run(next, parse, ms[1..]);
      forall k | k in r && k in store
        ensures r[k].userId == store[k].userId
        ensures r[k].email == store[k].email
        ensures r[k].creationTimestamp == store[k].creationTimestamp
      {
        SurvivorSurvivesFirstStep(store, parse, ms, k);
        ApplyKeepsIdentity(store, parse, ms[0], k);
      }
    }
  }

  /** The row under `k` in `before` is in `after`, unchanged. */
  ghost predicate RowKept(before: Store, after: Store, k: Uuid)
    requires k in before
  {
    k in after && after[k] == before[k]
  }

  /** A row that no request in the sequence names is left exactly as it was. */
  lemma {:induction false} RunFrame(store: Store, parse: string -> Option<Uuid>, ms: seq<Mutation>, k: Uuid)
    requires WellFormed(store)
    requires FreshIds(store, ms)
    requires k in store
    requires forall i :: 0 <= i < |ms| ==> !Names(parse, ms[i], k)
    ensures RowKept(store, Run(store, parse, ms), k)
    decreases |ms|
  {
    if |ms| > 0 {
      var next := Apply(store, parse, ms[0]);
      assert !Names(parse, ms[0], k);
      assert k in next && next[k] == store[k];
      FreshIdsStep(store, parse, ms);
      RunFrame(next, parse, ms[1..], k);
    }
  }
}
