/**
 Networks (Wi-Fi secrets): the secret store instantiated with the
 non-secret field `network`. Each operation is the network
 service's entry point, stated in terms of a network's own fields.
 */
module Networks {
  import opened Outcomes
  import opened Cryptography
  import opened Store
  import S = SecretService

  /** The field of a network besides title, password and owner. */
  datatype NetworkName = NetworkName(network: string)

  type Network = Row<NetworkName>

  /** `createNetwork({title, network, password, userId})`. */
  function CreateNetwork(t: Table<NetworkName>, c: Cipher, iv: Nonce, title: string, network: string,
                         password: string, userId: int): (r: Result<S.Created<NetworkName>>)
    requires Valid(t)
    ensures r.Err? <==> SelectByTitleAndOwner(t, title, userId) != {}
    ensures r.Err? ==> r.error == DuplicatedTitle
    ensures r.Ok? ==> Valid(r.value.store) && r.value.row.id !in t.rows
    ensures r.Ok? ==>
      && r.value.row.title == title
      && r.value.row.fields.network == network
      && r.value.row.password == c.encrypt(password, iv)
      && r.value.row.userId == userId
    ensures r.Ok? ==> r.value.row.id in r.value.store.rows && r.value.store.rows[r.value.row.id] == r.value.row
    ensures r.Ok? ==> SameElsewhere(t, r.value.store, r.value.row.id)
    ensures r.Ok? && TitlesUnique(t) ==> TitlesUnique(r.value.store)
  {
    S.Create(t, c, iv, Draft(title, NetworkName(network), password, userId))
  }

  /** `findNetwork(id, userId)`. */
  function FindNetwork(t: Table<NetworkName>, c: Cipher, id: int, userId: int): (r: Result<Network>)
    requires Valid(t)
    ensures r.Err? <==> SelectByIdAndOwner(t, id, userId) == {}
    ensures r.Err? ==> r.error == NotFound
    ensures r.Ok? ==> id in t.rows && r.value.id == id && r.value.userId == userId
    ensures r.Ok? ==>
      && r.value.title == t.rows[id].title
      && r.value.fields == t.rows[id].fields
      && r.value.password == c.decrypt(t.rows[id].password)
  {
    S.Find(t, c, id, userId)
  }

  /** `listAllNetworks(userId)`. */
  method ListAllNetworks(t: Table<NetworkName>, c: Cipher, userId: int) returns (r: Result<seq<Network>>)
    requires Valid(t)
    ensures r.Err? <==> SelectByOwner(t, userId) == {}
    ensures r.Err? ==> r.error == NotFound
    ensures r.Ok? ==> forall i :: 0 <= i < |r.value| ==>
      && r.value[i].id in t.rows
      && r.value[i].userId == userId
      && r.value[i].password == c.decrypt(t.rows[r.value[i].id].password)
      && r.value[i].(password := "") == t.rows[r.value[i].id].(password := "")
    ensures r.Ok? ==> forall k :: k in SelectByOwner(t, userId) ==> exists i :: 0 <= i < |r.value| && r.value[i].id == k
    ensures r.Ok? ==> forall i, j :: 0 <= i < j < |r.value| ==> r.value[i].id != r.value[j].id
  {
    r := S.ListAll(t, c, userId);
  }

  /** `deleteNetwork(id, userId)`; never throws Unauthorized. */
  function DeleteNetwork(t: Table<NetworkName>, id: int, userId: int): (r: Result<Table<NetworkName>>)
    requires Valid(t)
    ensures r.Err? <==> SelectByIdAndOwner(t, id, userId) == {}
    ensures r.Err? ==> r.error == NotFound
    ensures r.Ok? ==> Valid(r.value) && id !in r.value.rows && SameElsewhere(t, r.value, id)
  {
    S.Delete(t, id, userId)
  }

  /**
   The network scenario: once stored, the owner reads back exactly what
   was submitted, password in plaintext, and any other user gets NotFound.
   */
  lemma NetworkRoundTrip(t: Table<NetworkName>, c: Cipher, iv: Nonce, title: string, network: string,
                         password: string, userId: int, other: int)
    requires Valid(t) && RoundTrips(c) && other != userId
    requires CreateNetwork(t, c, iv, title, network, password, userId).Ok?
    ensures var x := CreateNetwork(t, c, iv, title, network, password, userId).value;
      && FindNetwork(x.store, c, x.row.id, userId) == Ok(Row(x.row.id, title, NetworkName(network), password, userId))
      && FindNetwork(x.store, c, x.row.id, other) == Err(NotFound)
      && DeleteNetwork(x.store, x.row.id, other) == Err(NotFound)
  {
  }
}
