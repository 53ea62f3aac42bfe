/**
 Credentials (site logins): the secret store instantiated with the
 non-secret fields `url` and `username`. Each operation is the credentials
 service's entry point, stated in terms of a credential's own fields.
 */
module Credentials {
  import opened Outcomes
  import opened Cryptography
  import opened Store
  import S = SecretService

  /** The fields of a credential besides title, password and owner. */
  datatype Login = Login(url: string, username: string)

  type Credential = Row<Login>

  /** `createCredential({title, url, username, password, userId})`. */
  function CreateCredential(t: Table<Login>, c: Cipher, iv: Nonce, title: string, url: string,
                            username: string, password: string, userId: int): (r: Result<S.Created<Login>>)
    requires Valid(t)
    ensures r.Err? <==> SelectByTitleAndOwner(t, title, userId) != {}
    ensures r.Err? ==> r.error == DuplicatedTitle
    ensures r.Ok? ==> Valid(r.value.store) && r.value.row.id !in t.rows
    ensures r.Ok? ==>
      && r.value.row.title == title
      && r.value.row.fields.url == url
      && r.value.row.fields.username == username
      && r.value.row.password == c.encrypt(password, iv)
      && r.value.row.userId == userId
    ensures r.Ok? ==> r.value.row.id in r.value.store.rows && r.value.store.rows[r.value.row.id] == r.value.row
    ensures r.Ok? ==> SameElsewhere(t, r.value.store, r.value.row.id)
    ensures r.Ok? && TitlesUnique(t) ==> TitlesUnique(r.value.store)
  {
    S.Create(t, c, iv, Draft(title, Login(url, username), password, userId))
  }

  /** `findCredential(id, userId)`. */
  function FindCredential(t: Table<Login>, c: Cipher, id: int, userId: int): (r: Result<Credential>)
    requires Valid(t)
    ensures r.Err? <==> SelectByIdAndOwner(t, id, userId) == {}
    ensures r.Err? ==> r.error == NotFound
    ensures r.Ok? ==> id in t.rows && r.value.id == id && r.value.userId == userId
    ensures r.Ok? ==>
      && r.value.title == t.rows[id].title
      && r.value.fields == t.rows[id].fields
      && r.value.password == c.decrypt(t.rows[id].password)
  {
    S.Find(t, c, id, userId)
  }

  /** `listAllCredentials(userId)`. */
  method ListAllCredentials(t: Table<Login>, c: Cipher, userId: int) returns (r: Result<seq<Credential>>)
    requires Valid(t)
    ensures r.Err? <==> SelectByOwner(t, userId) == {}
    ensures r.Err? ==> r.error == NotFound
    ensures r.Ok? ==> forall i :: 0 <= i < |r.value| ==>
      && r.value[i].id in t.rows
      && r.value[i].userId == userId
      && r.value[i].password == c.decrypt(t.rows[r.value[i].id].password)
      && r.value[i].(password := "") == t.rows[r.value[i].id].(password := "")
    ensures r.Ok? ==> forall k :: k in SelectByOwner(t, userId) ==> exists i :: 0 <= i < |r.value| && r.value[i].id == k
    ensures r.Ok? ==> forall i, j :: 0 <= i < j < |r.value| ==> r.value[i].id != r.value[j].id
  {
    r := S.ListAll(t, c, userId);
  }

  /** `deleteCredential(id, userId)`; never throws Unauthorized. */
  function DeleteCredential(t: Table<Login>, id: int, userId: int): (r: Result<Table<Login>>)
    requires Valid(t)
    ensures r.Err? <==> SelectByIdAndOwner(t, id, userId) == {}
    ensures r.Err? ==> r.error == NotFound
    ensures r.Ok? ==> Valid(r.value) && id !in r.value.rows && SameElsewhere(t, r.value, id)
  {
    S.Delete(t, id, userId)
  }

  /**
   The credential scenario: once stored, the owner reads back exactly what
   was submitted, password in plaintext, and any other user gets NotFound.
   */
  lemma CredentialRoundTrip(t: Table<Login>, c: Cipher, iv: Nonce, title: string, url: string,
                            username: string, password: string, userId: int, other: int)
    requires Valid(t) && RoundTrips(c) && other != userId
    requires CreateCredential(t, c, iv, title, url, username, password, userId).Ok?
    ensures var x := CreateCredential(t, c, iv, title, url, username, password, userId).value;
      && FindCredential(x.store, c, x.row.id, userId) == Ok(Row(x.row.id, title, Login(url, username), password, userId))
      && FindCredential(x.store, c, x.row.id, other) == Err(NotFound)
      && DeleteCredential(x.store, x.row.id, other) == Err(NotFound)
  {
  }
}
