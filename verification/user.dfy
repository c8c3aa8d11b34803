/** The persisted `User` entity: six nullable fields, three constructors and
    one setter per field. Getters are the datatype's field selectors. */
module UserEntity {
  import opened Wrappers

  /** A 128-bit identifier, held as java.util.UUID holds it. */
  datatype Uuid = Uuid(mostSigBits: bv64, leastSigBits: bv64)

  /** A point on the time line; only ever stored and compared, never computed with. */
  datatype Instant = Instant(epochSecond: int, nanos: nat)

  /** Every field is a nullable Java reference, hence an `Option`. */
  datatype User = User(
    userId: Option<Uuid>,
    username: Option<string>,
    email: Option<string>,
    password: Option<string>,
    creationTimestamp: Option<Instant>,
    updateTimestamp: Option<Instant>)
  {
    function SetUserId(v: Option<Uuid>): (r: User)
      ensures r.userId == v
      ensures r.username == username && r.email == email && r.password == password
      ensures r.creationTimestamp == creationTimestamp && r.updateTimestamp == updateTimestamp
    {
      this.(userId := v)
    }

    function SetUsername(v: Option<string>): (r: User)
      ensures r.username == v
      ensures r.userId == userId && r.email == email && r.password == password
      ensures r.creationTimestamp == creationTimestamp && r.updateTimestamp == updateTimestamp
    {
      this.(username := v)
    }

    function SetEmail(v: Option<string>): (r: User)
      ensures r.email == v
      ensures r.userId == userId && r.username == username && r.password == password
      ensures r.creationTimestamp == creationTimestamp && r.updateTimestamp == updateTimestamp
    {
      this.(email := v)
    }

    function SetPassword(v: Option<string>): (r: User)
      ensures r.password == v
      ensures r.userId == userId && r.username == username && r.email == email
      ensures r.creationTimestamp == creationTimestamp && r.updateTimestamp == updateTimestamp
    {
      this.(password := v)
    }

    function SetCreationTimestamp(v: Option<Instant>): (r: User)
      ensures r.creationTimestamp == v
      ensures r.userId == userId && r.username == username && r.email == email
      ensures r.password == password && r.updateTimestamp == updateTimestamp
    {
      this.(creationTimestamp := v)
    }

    function SetUpdateTimestamp(v: Option<Instant>): (r: User)
      ensures r.updateTimestamp == v
      ensures r.userId == userId && r.username == username && r.email == email
      ensures r.password == password && r.creationTimestamp == creationTimestamp
    {
      this.(updateTimestamp := v)
    }
  }

  /** The no-argument constructor JPA needs: every field is null. */
  function NewUser(): (r: User)
    ensures r.userId.None? && r.username.None? && r.email.None? && r.password.None?
    ensures r.creationTimestamp.None? && r.updateTimestamp.None?
  {
    User(None, None, None, None, None, None)
  }

  /** The six-argument constructor, used to rebuild a stored record. */
  function UserOf(userId: Option<Uuid>, username: Option<string>, email: Option<string>,
                  password: Option<string>, creationTimestamp: Option<Instant>,
                  updateTimestamp: Option<Instant>): (r: User)
    ensures r.userId == userId && r.username == username && r.email == email
    ensures r.password == password
    ensures r.creationTimestamp == creationTimestamp && r.updateTimestamp == updateTimestamp
  {
    User(userId, username, email, password, creationTimestamp, updateTimestamp)
  }

  /** The three-argument constructor used for new records: no id, no timestamps. */
  function NewUserOf(username: Option<string>, email: Option<string>, password: Option<string>): (r: User)
    ensures r.username == username && r.email == email && r.password == password
    ensures r.userId.None? && r.creationTimestamp.None? && r.updateTimestamp.None?
  {
    User(None, username, email, password, None, None)
  }

  /** A record rebuilt from its own getters through the six-argument
      constructor is the record itself: the constructor loses nothing. */
  lemma RebuildFromGetters(u: User)
    ensures UserOf(u.userId, u.username, u.email, u.password,
                   u.creationTimestamp, u.updateTimestamp) == u
  {
  }

  /** The three-argument constructor is the no-argument one followed by the
      three setters it replaces. */
  lemma NewUserOfIsSetters(username: Option<string>, email: Option<string>, password: Option<string>)
    ensures NewUserOf(username, email, password)
         == NewUser().SetUsername(username).SetEmail(email).SetPassword(password)
  {
  }

  /** Setting a field twice keeps only the last value, and setters of two
      different fields can be applied in either order. */
  lemma SettersLastWriteWins(u: User, a: Option<string>, b: Option<string>)
    ensures u.SetUsername(a).SetUsername(b) == u.SetUsername(b)
    ensures u.SetPassword(a).SetPassword(b) == u.SetPassword(b)
    ensures u.SetUsername(a).SetPassword(b) == u.SetPassword(b).SetUsername(a)
  {
  }

  /** Setting a field to the value its getter returns changes nothing. */
  lemma SetToOwnValueIsIdentity(u: User)
    ensures u.SetUserId(u.userId) == u
    ensures u.SetUsername(u.username) == u
    ensures u.SetEmail(u.email) == u
    ensures u.SetPassword(u.password) == u
    ensures u.SetCreationTimestamp(u.creationTimestamp) == u
    ensures u.SetUpdateTimestamp(u.updateTimestamp) == u
  {
  }
}
