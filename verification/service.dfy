/** The user service: the five operations over the repository. Each returns
    an `Outcome` holding the value the Java method returns (or the error it
    throws), the table afterwards, and the repository calls it issued in
    order. Identifier text is parsed by `parse`, which stands for
    UUID.fromString: `None` is the IllegalArgumentException it throws. */
module UserService {
  import opened Wrappers
  import opened UserEntity
  import opened UserRepository

  /** The create request; any field may be null. */
  datatype CreateUserDto = CreateUserDto(username: Option<string>, email: Option<string>, password: Option<string>)

  /** The update request; a null field means "leave as it is". */
  datatype UpdateUserDto = UpdateUserDto(username: Option<string>, password: Option<string>)

  /** What a service call can throw before reaching the repository. */
  datatype ServiceError = MalformedId(text: string)

  datatype Outcome<T> = Outcome(result: Result<T, ServiceError>, store: Store, calls: seq<RepoCall>)

  /** `createUser`: builds a record from the request with no id, saves it and
      returns the id the persistence engine gave it (`freshId`). */
  function CreateUser(store: Store, dto: CreateUserDto, freshId: Uuid, now: Instant): (o: Outcome<Uuid>)
    requires freshId !in store
    ensures o.result == Success(freshId)
    ensures o.store.Keys == store.Keys + {freshId}
    ensures forall k :: k in store ==> o.store[k] == store[k]
    ensures o.store[freshId].userId == Some(freshId)
    ensures o.store[freshId].username == dto.username
    ensures o.store[freshId].email == dto.email
    ensures o.store[freshId].password == dto.password
    ensures o.store[freshId].creationTimestamp == Some(now)
    ensures |o.calls| == 1 && o.calls[0].SaveCall?
    ensures o.calls[0].user.userId.None?
    ensures o.calls[0].user.username == dto.username && o.calls[0].user.email == dto.email
    ensures o.calls[0].user.password == dto.password
    ensures WellFormed(store) ==> WellFormed(o.store)
  {
    var entity := NewUserOf(dto.username, dto.email, dto.password);
    var saved := Save(store, entity, freshId, now);
    Outcome(Success(saved.user.userId.value), saved.store, [SaveCall(entity)])
  }

  /** `getUserById`: the lookup of the parsed id; a missing row is an empty
      result, not an error. */
  function GetUserById(store: Store, parse: string -> Option<Uuid>, idText: string): (o: Outcome<Option<User>>)
    ensures o.store == store
    ensures parse(idText).None? ==> o.result == Failure(MalformedId(idText)) && o.calls == []
    ensures parse(idText).Some? ==>
      var id := parse(idText).value;
      && o.result.Success?
      && (o.result.value.Some? <==> id in store)
      && (id in store ==> o.result.value.value == store[id])
      && o.calls == [FindByIdCall(id)]
  {
    match parse(idText)
    case None => Outcome(Failure(MalformedId(idText)), store, [])
    case Some(id) => Outcome(Success(FindById(store, id)), store, [FindByIdCall(id)])
  }

  /** `listUsers`: every stored record, unfiltered. */
  method ListUsers(store: Store) returns (o: Outcome<seq<User>>)
    ensures o.store == store && o.calls == [FindAllCall]
    ensures o.result.Success?
    ensures |o.result.value| == |store|
    ensures forall i :: 0 <= i < |o.result.value| ==> o.result.value[i] in store.Values
    ensures forall k :: k in store ==> store[k] in o.result.value
    ensures WellFormed(store) ==>
      forall i, j :: 0 <= i < j < |o.result.value| ==> o.result.value[i] != o.result.value[j]
  {
    var users := FindAll(store);
    o := Outcome(Success(users), store, [FindAllCall]);
  }

  /** The record an update saves: each non-null request field replaces the
      stored one; email, id and timestamps are carried over. */
  function Patched(u: User, dto: UpdateUserDto): (r: User)
    ensures dto.username.Some? ==> r.username == dto.username
    ensures dto.username.None? ==> r.username == u.username
    ensures dto.password.Some? ==> r.password == dto.password
    ensures dto.password.None? ==> r.password == u.password
    ensures r.userId == u.userId && r.email == u.email
    ensures r.creationTimestamp == u.creationTimestamp && r.updateTimestamp == u.updateTimestamp
  {
    var afterName := if dto.username.Some? then u.SetUsername(dto.username) else u;
    if dto.password.Some? then afterName.SetPassword(dto.password) else afterName
  }

  /** `updateUserById`: if a row exists under the parsed id, overwrite its
      username and/or password where the request gives one and save it;
      otherwise do nothing. */
  function UpdateUserById(store: Store, parse: string -> Option<Uuid>, idText: string,
                          dto: UpdateUserDto, now: Instant): (o: Outcome<()>)
    requires WellFormed(store)
    ensures WellFormed(o.store)
    ensures parse(idText).None? ==>
      o.result == Failure(MalformedId(idText)) && o.store == store && o.calls == []
    ensures parse(idText).Some? ==> o.result == Success(())
    ensures parse(idText).Some? && parse(idText).value !in store ==>
      o.store == store && o.calls == [FindByIdCall(parse(idText).value)]
    ensures parse(idText).Some? && parse(idText).value in store ==> o.store.Keys == store.Keys
    ensures parse(idText).Some? && parse(idText).value in store ==>
      var id := parse(idText).value;
      var before := store[id];
      var after := o.store[id];
      && (forall k :: k in store && k != id ==> o.store[k] == store[k])
      && (dto.username.Some? ==> after.username == dto.username)
      && (dto.username.None? ==> after.username == before.username)
      && (dto.password.Some? ==> after.password == dto.password)
      && (dto.password.None? ==> after.password == before.password)
      && after.email == before.email
      && after.userId == before.userId
      && after.creationTimestamp == before.creationTimestamp
      && |o.calls| == 2 && o.calls[0] == FindByIdCall(id) && o.calls[1].SaveCall?
      && o.calls[1].user.userId == Some(id)
  {
    match parse(idText)
    case None => Outcome(Failure(MalformedId(idText)), store, [])
    case Some(id) =>
      match FindById(store, id)
      case None => Outcome(Success(()), store, [FindByIdCall(id)])
      case Some(user) =>
        var patched := Patched(user, dto);
        var saved := Save(store, patched, id, now);
        Outcome(Success(()), saved.store, [FindByIdCall(id), SaveCall(patched)])
  }

  /** `deleteById`: remove the row under the parsed id if there is one;
      a missing row is a silent no-op with no delete issued. */
  function DeleteUserById(store: Store, parse: string -> Option<Uuid>, idText: string): (o: Outcome<()>)
    ensures WellFormed(store) ==> WellFormed(o.store)
    ensures parse(idText).None? ==>
      o.result == Failure(MalformedId(idText)) && o.store == store && o.calls == []
    ensures parse(idText).Some? ==> o.result == Success(())
    ensures parse(idText).Some? && parse(idText).value !in store ==>
      o.store == store && o.calls == [ExistsByIdCall(parse(idText).value)]
    ensures parse(idText).Some? && parse(idText).value in store ==>
      var id := parse(idText).value;
      && o.store.Keys == store.Keys - {id}
      && (forall k :: k in o.store ==> o.store[k] == store[k])
      && o.calls == [ExistsByIdCall(id), DeleteByIdCall(id)]
  {
    match parse(idText)
    case None => Outcome(Failure(MalformedId(idText)), store, [])
    case Some(id) =>
      if ExistsById(store, id) then
        Outcome(Success(()), DeleteById(store, id), [ExistsByIdCall(id), DeleteByIdCall(id)])
      else
        Outcome(Success(()), store, [ExistsByIdCall(id)])
  }
}
