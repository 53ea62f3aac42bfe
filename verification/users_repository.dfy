/**
 The user repository: a table of users keyed by id, with `email` a unique
 column, and the two queries the user service issues.
 */
module UserRepository {
  import opened Outcomes

  /** A stored user; `password` holds the bcrypt hash. */
  datatype User = User(id: int, email: string, password: string)

  /** The users keyed by id, and the next autoincrement id. */
  datatype UserTable = UserTable(users: map<int, User>, nextId: int)

  /** Every user sits under its own id, which is an autoincrement value. */
  ghost predicate Valid(t: UserTable) {
    && 1 <= t.nextId
    && forall id :: id in t.users ==> t.users[id].id == id && 1 <= id < t.nextId
  }

  /** The unique constraint on `email`: no two users share one. */
  ghost predicate EmailsUnique(t: UserTable) {
    forall i, j :: i in t.users && j in t.users && t.users[i].email == t.users[j].email ==> i == j
  }

  /** `t'` agrees with `t` on every id except `id`. */
  ghost predicate SameElsewhere(t: UserTable, t': UserTable, id: int) {
    forall k :: k != id ==> (k in t.users <==> k in t'.users) && (k in t.users ==> t'.users[k] == t.users[k])
  }

  /** The ids of the users a `where: { email }` filter selects. */
  function SelectByEmail(t: UserTable, email: string): set<int> {
    set k | k in t.users && t.users[k].email == email
  }

  /**
   `findByEmail(email)`: a `findUnique` on the unique column, so at most one
   user matches and that user, if any, is the result.
   */
  function FindByEmail(t: UserTable, email: string): (r: Option<User>)
    requires Valid(t) && EmailsUnique(t)
    ensures r.None? <==> SelectByEmail(t, email) == {}
    ensures r.Some? ==> SelectByEmail(t, email) == {r.value.id} && r.value == t.users[r.value.id]
  {
    if exists id :: id in t.users && t.users[id].email == email then
      var id :| id in t.users && t.users[id].email == email;
      assert id in SelectByEmail(t, email);
      assert forall k :: k in SelectByEmail(t, email) <==> k == id;
      Some(t.users[id])
    else
      assert forall k :: k !in SelectByEmail(t, email);
      None
  }

  /**
   `createUser(data)`: stores a user with the given email and password under
   the next autoincrement id and modifies no other user.
   */
  function CreateUser(t: UserTable, email: string, password: string): (r: (UserTable, User))
    requires Valid(t)
    ensures Valid(r.0)
    ensures r.1.id !in t.users && t.nextId <= r.1.id < r.0.nextId
    ensures r.1.email == email && r.1.password == password
    ensures r.1.id in r.0.users && r.0.users[r.1.id] == r.1
    ensures SameElsewhere(t, r.0, r.1.id)
  {
    var user := User(t.nextId, email, password);
    (UserTable(t.users[user.id := user], t.nextId + 1), user)
  }

  /** After `createUser` with an email no one has, `findByEmail` finds that user. */
  lemma CreatedUserIsFound(t: UserTable, email: string, password: string)
    requires Valid(t) && EmailsUnique(t) && SelectByEmail(t, email) == {}
    ensures EmailsUnique(CreateUser(t, email, password).0)
    ensures FindByEmail(CreateUser(t, email, password).0, email) == Some(CreateUser(t, email, password).1)
  {
    var (t', user) := CreateUser(t, email, password);
    assert forall k :: k in t.users ==> t.users[k].email != email by {
      forall k | k in t.users ensures t.users[k].email != email {
        assert k !in SelectByEmail(t, email);
      }
    }
    assert user.id in SelectByEmail(t', email);
  }
}
