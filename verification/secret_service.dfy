/**
 The service layer shared by credentials and networks, built on `Store`.

 Every operation is an atomic step over an immutable table: a create or a
 delete either throws an `ErrorKind` and writes nothing, or returns the new
 table; a find or a list never returns a table, so it cannot change one.
 Passwords are encrypted on the way in and decrypted on the way out.
 */
module SecretService {
  import opened Outcomes
  import opened Cryptography
  import opened Store

  /** A successful create: the new table and the row it stored. */
  datatype Created<F> = Created(store: Table<F>, row: Row<F>)

  /** A stored row as the service returns it, with its password decrypted. */
  function Opened<F>(row: Row<F>, c: Cipher): Row<F> {
    row.(password := c.decrypt(row.password))
  }

  /** `validateTitle`: throws when `findByTitle(title, userId)` finds a row. */
  function ValidateTitle<F>(t: Table<F>, title: string, userId: int): (r: Check)
    requires Valid(t)
    ensures r.Fail? ==> r.error == DuplicatedTitle
    ensures r.Pass? <==> SelectByTitleAndOwner(t, title, userId) == {}
    ensures r.Pass? <==> forall k :: k in t.rows && t.rows[k].userId == userId ==> t.rows[k].title != title
  {
    match FindByTitle(t, title, userId)
    case Some(_) => Fail(DuplicatedTitle)
    case None =>
      assert forall k :: k in t.rows && t.rows[k].userId == userId ==> k !in SelectByTitleAndOwner(t, title, userId);
      Pass
  }

  /**
   `create`: rejects a title the owner already uses, otherwise encrypts the
   password with a fresh IV and stores exactly one new row.
   */
  function Create<F>(t: Table<F>, c: Cipher, iv: Nonce, d: Draft<F>): (r: Result<Created<F>>)
    requires Valid(t)
    ensures r.Err? <==> SelectByTitleAndOwner(t, d.title, d.userId) != {}
    ensures r.Err? ==> r.error == DuplicatedTitle
    ensures r.Ok? ==> Valid(r.value.store)
    ensures r.Ok? ==> r.value.row.id !in t.rows && t.nextId <= r.value.row.id < r.value.store.nextId
    ensures r.Ok? ==> DraftOf(r.value.row) == d.(password := c.encrypt(d.password, iv))
    ensures r.Ok? ==> r.value.row.id in r.value.store.rows && r.value.store.rows[r.value.row.id] == r.value.row
    ensures r.Ok? ==> SameElsewhere(t, r.value.store, r.value.row.id)
    ensures r.Ok? && TitlesUnique(t) ==> TitlesUnique(r.value.store)
  {
    match ValidateTitle(t, d.title, d.userId)
    case Fail(e) => Err(e)
    case Pass =>
      var inserted := Insert(t, d.(password := c.encrypt(d.password, iv)));
      assert forall k :: k !in SelectByTitleAndOwner(t, d.title, d.userId);
      Ok(Created(inserted.0, inserted.1))
  }

  /**
   `find`: the owner-scoped fetch; a row of another owner is NotFound like a
   missing one. The returned row carries the decrypted password.
   */
  function Find<F>(t: Table<F>, c: Cipher, id: int, userId: int): (r: Result<Row<F>>)
    requires Valid(t)
    ensures r.Err? <==> SelectByIdAndOwner(t, id, userId) == {}
    ensures r.Err? ==> r.error == NotFound
    ensures r.Ok? ==> id in t.rows && t.rows[id].userId == userId && r.value == Opened(t.rows[id], c)
  {
    match FindById(t, id, userId)
    case None => Err(NotFound)
    case Some(row) => Ok(Opened(row, c))
  }

  /**
   `listAll`: every row of the owner exactly once, each with its password
   decrypted; an owner with no rows is NotFound rather than an empty list.
   */
  method ListAll<F>(t: Table<F>, c: Cipher, userId: int) returns (r: Result<seq<Row<F>>>)
    requires Valid(t)
    ensures r.Err? <==> SelectByOwner(t, userId) == {}
    ensures r.Err? ==> r.error == NotFound
    ensures r.Ok? ==> forall i :: 0 <= i < |r.value| ==>
      r.value[i].id in SelectByOwner(t, userId) && r.value[i] == Opened(t.rows[r.value[i].id], c)
    ensures r.Ok? ==> forall k :: k in SelectByOwner(t, userId) ==> exists i :: 0 <= i < |r.value| && r.value[i].id == k
    ensures r.Ok? ==> forall i, j :: 0 <= i < j < |r.value| ==> r.value[i].id != r.value[j].id
  {
    var rows := ListAllByUserId(t, userId);
    if |rows| == 0 {
      assert forall k :: k !in SelectByOwner(t, userId);
      return Err(NotFound);
    }
    assert rows[0].id in SelectByOwner(t, userId);
    var decrypted := seq(|rows|, i requires 0 <= i < |rows| => Opened(rows[i], c));
    forall k | k in SelectByOwner(t, userId)
      ensures exists i :: 0 <= i < |decrypted| && decrypted[i].id == k
    {
      var i :| 0 <= i < |rows| && rows[i].id == k;
      assert decrypted[i].id == k;
    }
    return Ok(decrypted);
  }

  /**
   `delete`, as written: fetch scoped to the owner, NotFound when absent,
   then an ownership comparison that throws Unauthorized, then delete by id.
   The fetch already filtered on the owner, so the comparison never fails:
   a row of another owner is NotFound, and Unauthorized is never returned.
   */
  function Delete<F>(t: Table<F>, id: int, userId: int): (r: Result<Table<F>>)
    requires Valid(t)
    ensures r.Err? <==> SelectByIdAndOwner(t, id, userId) == {}
    ensures r.Err? ==> r.error == NotFound
    ensures r.Ok? ==> Valid(r.value) && id !in r.value.rows && r.value.nextId == t.nextId
    ensures r.Ok? ==> SameElsewhere(t, r.value, id)
    ensures r.Ok? && TitlesUnique(t) ==> TitlesUnique(r.value)
  {
    match FindById(t, id, userId)
    case None => Err(NotFound)
    case Some(row) =>
      if row.userId != userId then Err(Unauthorized)
      else
        assert id in SelectById(t, id);
        Ok(Store.Delete(t, id).value)
  }

  // Sequences of writes.

  /** A write a caller can issue: a create (with the IV Cryptr draws) or a delete. */
  datatype Op<F> = CreateOp(iv: Nonce, draft: Draft<F>) | DeleteOp(id: int, userId: int)

  /** Apply one write; a write that throws leaves the table as it was. */
  function Step<F>(t: Table<F>, c: Cipher, op: Op<F>): (t': Table<F>)
    requires Valid(t)
    ensures Valid(t') && t.nextId <= t'.nextId
    ensures forall k :: k in t'.rows && k < t.nextId ==> k in t.rows && t'.rows[k] == t.rows[k]
    ensures TitlesUnique(t) ==> TitlesUnique(t')
  {
    match op
    case CreateOp(iv, d) =>
      (match Create(t, c, iv, d)
       case Ok(x) => x.store
       case Err(_) => t)
    case DeleteOp(id, u) =>
      (match Delete(t, id, u)
       case Ok(t') => t'
       case Err(_) => t)
  }

  /** Apply a sequence of writes in order. */
  function Run<F>(t: Table<F>, c: Cipher, ops: seq<Op<F>>): (t': Table<F>)
    requires Valid(t)
    ensures Valid(t') && t.nextId <= t'.nextId
    decreases |ops|
  {
    if |ops| == 0 then t else Run(Step(t, c, ops[0]), c, ops[1..])
  }

  /**
   Rows are never rewritten and ids are never reused: a row with an id below
   the starting counter that is still present after any writes is the very
   row that was there at the start.
   */
  lemma {:induction false} RunKeepsEarlierRows<F>(t: Table<F>, c: Cipher, ops: seq<Op<F>>)
    requires Valid(t)
    ensures forall k :: k in Run(t, c, ops).rows && k < t.nextId ==> k in t.rows && Run(t, c, ops).rows[k] == t.rows[k]
    decreases |ops|
  {
    if |ops| > 0 {
      RunKeepsEarlierRows(Step(t, c, ops[0]), c, ops[1..]);
    }
  }

  /** Per-owner title uniqueness holds after any sequence of writes. */
  lemma {:induction false} RunKeepsTitlesUnique<F>(t: Table<F>, c: Cipher, ops: seq<Op<F>>)
    requires Valid(t) && TitlesUnique(t)
    ensures TitlesUnique(Run(t, c, ops))
    decreases |ops|
  {
    if |ops| > 0 {
      RunKeepsTitlesUnique(Step(t, c, ops[0]), c, ops[1..]);
    }
  }

  /**
   The round trip: after a successful create and any later writes, a find
   by the owner of the row, while it is still stored, returns exactly what
   was submitted, with the plaintext password.
   */
  lemma StoredSecretSurvives<F>(t: Table<F>, c: Cipher, iv: Nonce, d: Draft<F>, ops: seq<Op<F>>)
    requires Valid(t) && RoundTrips(c)
    requires Create(t, c, iv, d).Ok?
    ensures var x := Create(t, c, iv, d).value;
            x.row.id in Run(x.store, c, ops).rows ==>
              Find(Run(x.store, c, ops), c, x.row.id, d.userId) == Ok(Row(x.row.id, d.title, d.fields, d.password, d.userId))
  {
    var x := Create(t, c, iv, d).value;
    RunKeepsEarlierRows(x.store, c, ops);
  }

  /** Ownership isolation: another owner's row can be neither read nor deleted. */
  lemma ForeignRowIsHidden<F>(t: Table<F>, c: Cipher, id: int, userId: int)
    requires Valid(t) && id in t.rows && t.rows[id].userId != userId
    ensures Find(t, c, id, userId) == Err(NotFound)
    ensures Delete(t, id, userId) == Err(NotFound)
  {
  }

  /**
   Title uniqueness is scoped per owner: once `d` is stored, the same title
   is refused to the same owner but accepted for an owner who lacks it.
   */
  lemma TitleScopedPerOwner<F>(t: Table<F>, c: Cipher, iv: Nonce, d: Draft<F>, iv2: Nonce, d2: Draft<F>)
    requires Valid(t) && Create(t, c, iv, d).Ok? && d2.title == d.title
    ensures d2.userId == d.userId ==> Create(Create(t, c, iv, d).value.store, c, iv2, d2) == Err(DuplicatedTitle)
    ensures d2.userId != d.userId && SelectByTitleAndOwner(t, d.title, d2.userId) == {} ==>
      Create(Create(t, c, iv, d).value.store, c, iv2, d2).Ok?
  {
  }
}
