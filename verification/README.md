# User store service — a Dafny model

This project models the user-management core of a Spring Boot CRUD backend.
It covers the `User` entity and the `UserService` operations that create,
read, list, partially update and delete users through a repository.

The repository is a Spring Data interface with no code of its own. It is
modelled as a finite map from a UUID to a `User` row, with the usual
semantics:
- `save` inserts a record that has no id. It overwrites the row at the id of a record that has one, unless the record equals that row.
- `findById` is a lookup.
- `existsById` is key membership.
- `deleteById` removes the key.
- `findAll` enumerates the rows.

Modules:
- `Wrappers` (`wrappers.dfy`): `Option` stands for a nullable reference or `Optional`; `Result` stands for a normal return or a thrown exception.
- `UserEntity` (`user.dfy`): the `User` record with its six nullable fields, the three constructors, and the setters. The getters are the datatype's field selectors.
- `UserRepository` (`repository.dfy`): the table as `map<Uuid, User>`. Each of the five repository calls is a member, and `RepoCall` records which call was issued. `WellFormed` states that every row's `userId` is its key.
- `UserService` (`service.dfy`): the five service operations. Each returns an `Outcome` with three parts: the Java return value (or the thrown error), the table afterwards, and the repository calls issued, in order. The unit tests check the number of each call, and its argument, with `verify(..., times(n))`.
- `UserServiceProperties` (`service_properties.dfy`): properties that relate several calls. These are the create/get/delete round trips, idempotence, and what any sequence of create, update and delete requests keeps fixed.

Parameters stand in for things outside the code:
- `parse: string -> Option<Uuid>` stands for `UUID.fromString`. `None` is the `IllegalArgumentException` it throws. In that case the service issues no repository call and the table is unchanged.
- `freshId` is the id Hibernate generates on insert (`@GeneratedValue`). It must not already be a key.
- `now` is the clock that Hibernate reads for `@CreationTimestamp` and `@UpdateTimestamp`. On insert, `save` stamps both timestamps. A save of a record that has an id is a merge. If the record equals the stored row, nothing is written and the row keeps its update timestamp. Otherwise the row is overwritten and only its update timestamp is refreshed. The service contracts make no claim about `updateTimestamp` after an update that changes the row.

Ids and both timestamps are assigned by the persistence engine, never by the service. The service does not set `updateTimestamp` on update; only `@UpdateTimestamp` does.

## Model

| member | source | states |
|---|---|---|
| UserEntity.NewUser | src/main/java/joao/saraiva/agregadorinvestimentos/entity/User.java:32-34 | the no-argument constructor leaves all six fields null |
| UserEntity.UserOf | src/main/java/joao/saraiva/agregadorinvestimentos/entity/User.java:36-43 | the six-argument constructor stores each argument in the field of the same name |
| UserEntity.NewUserOf | src/main/java/joao/saraiva/agregadorinvestimentos/entity/User.java:46-50 | the three-argument constructor sets username, email and password and leaves the id and both timestamps null |
| UserEntity.User.SetUserId | src/main/java/joao/saraiva/agregadorinvestimentos/entity/User.java:57-63 | after setUserId the getter returns the new id; the other five fields are unchanged |
| UserEntity.User.SetUsername | src/main/java/joao/saraiva/agregadorinvestimentos/entity/User.java:65-71 | after setUsername the getter returns the new value; the other five fields are unchanged |
| UserEntity.User.SetEmail | src/main/java/joao/saraiva/agregadorinvestimentos/entity/User.java:73-79 | after setEmail the getter returns the new value; the other five fields are unchanged |
| UserEntity.User.SetPassword | src/main/java/joao/saraiva/agregadorinvestimentos/entity/User.java:81-87 | after setPassword the getter returns the new value; the other five fields are unchanged |
| UserEntity.User.SetCreationTimestamp | src/main/java/joao/saraiva/agregadorinvestimentos/entity/User.java:89-95 | after setCreationTimestamp the getter returns the new value; the other five fields are unchanged |
| UserEntity.User.SetUpdateTimestamp | src/main/java/joao/saraiva/agregadorinvestimentos/entity/User.java:97-103 | after setUpdateTimestamp the getter returns the new value; the other five fields are unchanged |
| UserEntity.RebuildFromGetters | src/main/java/joao/saraiva/agregadorinvestimentos/entity/User.java:36-43 | passing a record's six getter values to the six-argument constructor gives back that record |
| UserEntity.NewUserOfIsSetters | src/main/java/joao/saraiva/agregadorinvestimentos/entity/User.java:46-50 | the three-argument constructor equals the no-argument constructor followed by setUsername, setEmail and setPassword |
| UserEntity.SettersLastWriteWins | src/main/java/joao/saraiva/agregadorinvestimentos/entity/User.java:65-87 | setting a field twice keeps the last value, and the username and password setters commute |
| UserEntity.SetToOwnValueIsIdentity | src/main/java/joao/saraiva/agregadorinvestimentos/entity/User.java:57-103 | setting any field to its current getter value leaves the record unchanged |
| UserRepository.Save | src/main/java/joao/saraiva/agregadorinvestimentos/entity/User.java:13-30 | a record without an id is inserted under a new generated key, with both timestamps set; a record with an id that equals its stored row writes nothing; any other record with an id overwrites its own row with a refreshed update timestamp and keeps its creation timestamp; the content fields are stored as given; no other row changes; the id-equals-key invariant is kept |
| UserRepository.FindById | src/main/java/joao/saraiva/agregadorinvestimentos/service/UserService.java:42 | the lookup is present exactly when the key is stored, and then it holds that row |
| UserRepository.ExistsById | src/main/java/joao/saraiva/agregadorinvestimentos/service/UserService.java:73 | existence holds exactly when findById would find a row |
| UserRepository.DeleteById | src/main/java/joao/saraiva/agregadorinvestimentos/service/UserService.java:76 | the key is removed, every other row is kept unchanged, and the invariant is kept |
| UserRepository.FindAll | src/main/java/joao/saraiva/agregadorinvestimentos/service/UserService.java:46 | the list has one entry per stored row: its length is the table's size, each entry is a stored row, each stored row appears, and on a well-formed table no row appears twice |
| UserService.CreateUser | src/main/java/joao/saraiva/agregadorinvestimentos/service/UserService.java:22-38 | saves exactly one record: no id, with the request's username, email and password; returns the generated id; afterwards that id maps to a row with the request's fields, and no existing row changes |
| UserService.GetUserById | src/main/java/joao/saraiva/agregadorinvestimentos/service/UserService.java:40-43 | a malformed id fails with no repository call; otherwise the result is present exactly when the id is stored and is then that row (absence is not an error); one findById is issued and the table does not change |
| UserService.ListUsers | src/main/java/joao/saraiva/agregadorinvestimentos/service/UserService.java:45-47 | returns every stored row unfiltered: the same count as the table, membership in both directions, and no duplicates on a well-formed table; it issues only findAll |
| UserService.Patched | src/main/java/joao/saraiva/agregadorinvestimentos/service/UserService.java:58-63 | a non-null request username or password replaces the stored one; a null one keeps it; id, email and timestamps are carried over |
| UserService.UpdateUserById | src/main/java/joao/saraiva/agregadorinvestimentos/service/UserService.java:49-67 | a malformed id fails and changes nothing; an absent id changes nothing and issues no save; for a stored id, username and password follow the non-null rule, while email, id and creation timestamp are unchanged, every other row is untouched, and exactly findById then save are issued |
| UserService.DeleteUserById | src/main/java/joao/saraiva/agregadorinvestimentos/service/UserService.java:69-79 | a malformed id fails and changes nothing; a stored id is removed, with existsById then deleteById issued and the other rows unchanged; an absent id leaves the table as it was, with only existsById issued |
| UserServiceProperties.CreateThenGet | src/main/java/joao/saraiva/agregadorinvestimentos/service/UserService.java:22-43 | getting the id a create returned finds a row with the request's username, email and password, and the table grew by one |
| UserServiceProperties.DeleteUndoesCreate | src/main/java/joao/saraiva/agregadorinvestimentos/service/UserService.java:69-79 | deleting the id a create returned restores the table exactly |
| UserServiceProperties.DeleteIdempotent | src/main/java/joao/saraiva/agregadorinvestimentos/service/UserService.java:69-79 | after a delete the id is not found; a second delete changes nothing and issues no repository delete |
| UserServiceProperties.DeleteIssuesDeleteIffFound | src/main/java/joao/saraiva/agregadorinvestimentos/service/UserService.java:69-79 | a repository delete is issued exactly when a get of the same id finds a record |
| UserServiceProperties.UpdateIdempotent | src/main/java/joao/saraiva/agregadorinvestimentos/service/UserService.java:49-67 | repeating an update with the same request and clock leaves the table as the first update left it |
| UserServiceProperties.EmptyUpdateKeepsContent | src/main/java/joao/saraiva/agregadorinvestimentos/service/UserService.java:55-65 | an update with both request fields null still issues a save, but the table, update timestamp included, stays exactly as it was |
| UserServiceProperties.Apply | src/main/java/joao/saraiva/agregadorinvestimentos/service/UserService.java:22-79 | one create, update or delete request keeps the id-equals-key invariant; a create adds exactly its generated key, and an update or delete adds no key |
| UserServiceProperties.Run | src/main/java/joao/saraiva/agregadorinvestimentos/service/UserService.java:22-79 | any sequence of create, update and delete requests whose creates get new, distinct ids keeps the invariant, and every key at the end was there at the start or was given to one of the creates |
| UserServiceProperties.RunKeepsIdentity | src/main/java/joao/saraiva/agregadorinvestimentos/service/UserService.java:55-65 | across any sequence of create, update and delete requests, every row of the starting table that survives keeps its id, email and creation timestamp |
| UserServiceProperties.RunFrame | src/main/java/joao/saraiva/agregadorinvestimentos/service/UserService.java:22-79 | a row that no request in the sequence names survives unchanged |
| UserServiceProperties.ApplyKeepsIdentity | src/main/java/joao/saraiva/agregadorinvestimentos/service/UserService.java:22-79 | one create, update or delete request keeps the id, email and creation timestamp of every row it leaves in place |

## Left out

- The HTTP controller (`UserController`) is routing and response plumbing, not service logic. Its `getUserById` handler is an unfinished stub that returns null.
- The UUID text format is not modelled. `UUID.fromString` is the abstract partial function `parse`.
- Hibernate's id generation is not modelled. It is the `freshId` parameter, which must not already be a key.
- The timestamp annotations are not modelled beyond what `Save` does with the clock parameter `now`: it stamps on insert and on a write, and skips the write for a merge of an unchanged record.
- The database's `unique` constraints on username and email are not modelled. The application code does not enforce them.
- Null id text and null request objects are not modelled. The Dafny types rule them out. In Java, `UUID.fromString(null)` throws a NullPointerException, and so does `createUser(null)` before any repository call. `updateUserById(id, null)` throws only when the row exists, after `findById`.
- Failures of the store are not modelled. This covers database errors, constraint violations, and exceptions thrown by `save` that propagate out of `createUser`.
- Database I/O, transactions, and concurrency between requests are not modelled. The model handles requests one at a time.
- Password encoding is not modelled. It exists only as a comment.
- The order of `findAll` is not modelled. The model promises only that the result enumerates the table.
- UserService.UpdateUserById: makes no claim about the row's `updateTimestamp` after an update that changes the row, because that value is set by the persistence engine, not by the service.
