/**
 The user service: sign-up with a duplicate-email check and a one-way hash
 of the password. bcrypt is the abstract `Hasher`; its random salt is a
 parameter.
 */
module UserService {
  import opened Outcomes
  import opened Cryptography
  import opened UserRepository

  /** The bcrypt cost factor. */
  const SALT_ROUNDS: nat := 12

  /** A successful sign-up: the new table and the stored user. */
  datatype SignedUp = SignedUp(store: UserTable, user: User)

  /** `validateEmail`: throws when `findByEmail(email)` finds a user. */
  function ValidateEmail(t: UserTable, email: string): (r: Check)
    requires Valid(t) && EmailsUnique(t)
    ensures r.Fail? ==> r.error == DuplicatedEmail
    ensures r.Pass? <==> SelectByEmail(t, email) == {}
    ensures r.Pass? <==> forall k :: k in t.users ==> t.users[k].email != email
  {
    match FindByEmail(t, email)
    case Some(_) => Fail(DuplicatedEmail)
    case None =>
      assert forall k :: k in t.users ==> k !in SelectByEmail(t, email);
      Pass
  }

  /**
   `createUser({email, password})`: rejects a taken email before hashing or
   writing anything; otherwise stores the email unchanged and the password
   as `hash(password, SALT_ROUNDS, salt)`.
   */
  function CreateUser(t: UserTable, h: Hasher, salt: Salt, email: string, password: string): (r: Result<SignedUp>)
    requires Valid(t) && EmailsUnique(t)
    ensures r.Err? <==> SelectByEmail(t, email) != {}
    ensures r.Err? ==> r.error == DuplicatedEmail
    ensures r.Ok? ==> Valid(r.value.store) && EmailsUnique(r.value.store)
    ensures r.Ok? ==> r.value.user.id !in t.users
    ensures r.Ok? ==> r.value.user.email == email && r.value.user.password == h.hash(password, SALT_ROUNDS, salt)
    ensures r.Ok? ==> r.value.user.id in r.value.store.users && r.value.store.users[r.value.user.id] == r.value.user
    ensures r.Ok? ==> SameElsewhere(t, r.value.store, r.value.user.id)
  {
    match ValidateEmail(t, email)
    case Fail(e) => Err(e)
    case Pass =>
      assert forall k :: k !in SelectByEmail(t, email);
      var created := UserRepository.CreateUser(t, email, h.hash(password, SALT_ROUNDS, salt));
      Ok(SignedUp(created.0, created.1))
  }

  /**
   The email check comes first: when it throws, the outcome is the same
   whatever the password, the hash function and the salt, so no hash and no
   write can have contributed to it.
   */
  lemma EmailCheckComesFirst(t: UserTable, email: string, h: Hasher, salt: Salt, password: string,
                             h': Hasher, salt': Salt, password': string)
    requires Valid(t) && EmailsUnique(t)
    requires CreateUser(t, h, salt, email, password).Err?
    ensures CreateUser(t, h', salt', email, password') == CreateUser(t, h, salt, email, password)
  {
  }

  /** A signed-up user is found by email afterwards, and emails stay unique. */
  lemma SignedUpUserIsFound(t: UserTable, h: Hasher, salt: Salt, email: string, password: string)
    requires Valid(t) && EmailsUnique(t)
    requires CreateUser(t, h, salt, email, password).Ok?
    ensures var x := CreateUser(t, h, salt, email, password).value;
      FindByEmail(x.store, email) == Some(x.user)
  {
  }
}
