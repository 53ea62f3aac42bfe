/**
 The repository layer shared by credentials and networks: an owner-scoped
 table of secret rows and the five queries both repositories issue.

 A row is `{id, title, <kind fields>, password, userId}`; the kind-specific
 non-secret part is the type parameter `F`. The table is a map from id to
 row together with the autoincrement counter that hands out fresh ids.
 Each Prisma `where` filter is given a reference meaning as the set of the
 ids of the rows it selects (`SelectById`, `SelectByIdAndOwner`, `SelectByTitleAndOwner`,
 `SelectByOwner`), and each query is proved against that set.
 */
module Store {
  import opened Outcomes

  /** One persisted row; `password` holds ciphertext. */
  datatype Row<F> = Row(id: int, title: string, fields: F, password: string, userId: int)

  /** The payload of a `create` call: a row without its id. */
  datatype Draft<F> = Draft(title: string, fields: F, password: string, userId: int)

  /** The rows of one table, keyed by id, and the next autoincrement id. */
  datatype Table<F> = Table(rows: map<int, Row<F>>, nextId: int)

  /**
   Every row sits under its own id, and ids are autoincrement values: at
   least 1 and below the counter.
   */
  ghost predicate Valid<F>(t: Table<F>) {
    && 1 <= t.nextId
    && forall id :: id in t.rows ==> t.rows[id].id == id && 1 <= id < t.nextId
  }

  /** No owner has two rows with the same title. */
  ghost predicate TitlesUnique<F>(t: Table<F>) {
    forall i, j ::
      i in t.rows && j in t.rows && t.rows[i].userId == t.rows[j].userId && t.rows[i].title == t.rows[j].title
      ==> i == j
  }

  /** `t'` agrees with `t` on every id except `id`. */
  ghost predicate SameElsewhere<F>(t: Table<F>, t': Table<F>, id: int) {
    forall k :: k != id ==> (k in t.rows <==> k in t'.rows) && (k in t.rows ==> t'.rows[k] == t.rows[k])
  }

  /** The create payload a stored row was made from. */
  function DraftOf<F>(row: Row<F>): Draft<F> {
    Draft(row.title, row.fields, row.password, row.userId)
  }

  // The ids of the rows each `where` filter selects.

  function SelectById<F>(t: Table<F>, id: int): set<int> {
    set k | k in t.rows && t.rows[k].id == id
  }

  function SelectByIdAndOwner<F>(t: Table<F>, id: int, userId: int): set<int> {
    set k | k in t.rows && t.rows[k].id == id && t.rows[k].userId == userId
  }

  function SelectByTitleAndOwner<F>(t: Table<F>, title: string, userId: int): set<int> {
    set k | k in t.rows && t.rows[k].title == title && t.rows[k].userId == userId
  }

  function SelectByOwner<F>(t: Table<F>, userId: int): set<int> {
    set k | k in t.rows && t.rows[k].userId == userId
  }

  /**
   `findById(id, userId)`: the filter names both the id and the owner, so a
   row of another owner is indistinguishable from a missing one. The id is
   unique, so at most one row matches.
   */
  function FindById<F>(t: Table<F>, id: int, userId: int): (r: Option<Row<F>>)
    requires Valid(t)
    ensures r.None? <==> SelectByIdAndOwner(t, id, userId) == {}
    ensures r.Some? ==> SelectByIdAndOwner(t, id, userId) == {id} && r.value == t.rows[id]
  {
    if id in t.rows && t.rows[id].userId == userId then
      assert id in SelectByIdAndOwner(t, id, userId);
      assert forall k :: k in SelectByIdAndOwner(t, id, userId) <==> k == id;
      Some(t.rows[id])
    else
      assert forall k :: k !in SelectByIdAndOwner(t, id, userId);
      None
  }

  /**
   `findByTitle(title, userId)`: `findFirst` with no `orderBy`, so which
   matching row comes back is unspecified by the source; the model scans the
   ids upwards and returns the first match.
   */
  function FindByTitle<F>(t: Table<F>, title: string, userId: int): (r: Option<Row<F>>)
    requires Valid(t)
    ensures r.None? <==> SelectByTitleAndOwner(t, title, userId) == {}
    ensures r.Some? ==> r.value.id in SelectByTitleAndOwner(t, title, userId) && r.value == t.rows[r.value.id]
  {
    var r := ScanTitle(t, title, userId, 1);
    assert r.None? ==> forall k :: k !in SelectByTitleAndOwner(t, title, userId);
    r
  }

  /** The first row at or above id `from` that has this title and owner. */
  function ScanTitle<F>(t: Table<F>, title: string, userId: int, from: int): (r: Option<Row<F>>)
    requires Valid(t) && 1 <= from
    ensures r.None? ==> forall k :: k in SelectByTitleAndOwner(t, title, userId) ==> k < from
    ensures r.Some? ==> r.value.id in SelectByTitleAndOwner(t, title, userId) && from <= r.value.id
    ensures r.Some? ==> r.value == t.rows[r.value.id]
    decreases t.nextId - from
  {
    if t.nextId <= from then None
    else if from in t.rows && t.rows[from].title == title && t.rows[from].userId == userId then Some(t.rows[from])
    else ScanTitle(t, title, userId, from + 1)
  }

  /**
   `listAllByUserId(userId)`: `findMany` with no `orderBy`. The result holds
   every row of the owner exactly once; the loop emits them by ascending id,
   one order among those the source allows.
   */
  method ListAllByUserId<F>(t: Table<F>, userId: int) returns (rs: seq<Row<F>>)
    requires Valid(t)
    ensures forall i :: 0 <= i < |rs| ==> rs[i].id in SelectByOwner(t, userId) && rs[i] == t.rows[rs[i].id]
    ensures forall k :: k in SelectByOwner(t, userId) ==> exists i :: 0 <= i < |rs| && rs[i].id == k
    ensures forall i, j :: 0 <= i < j < |rs| ==> rs[i].id != rs[j].id
  {
    rs := [];
    var id := 1;
    while id < t.nextId
      invariant forall i :: 0 <= i < |rs| ==> rs[i].id in SelectByOwner(t, userId) && rs[i] == t.rows[rs[i].id] && rs[i].id < id
      invariant forall k :: k in SelectByOwner(t, userId) && k < id ==> exists i :: 0 <= i < |rs| && rs[i].id == k
      invariant forall i, j :: 0 <= i < j < |rs| ==> rs[i].id < rs[j].id
    {
      if id in t.rows && t.rows[id].userId == userId {
        var before := rs;
        rs := rs + [t.rows[id]];
        forall k | k in SelectByOwner(t, userId) && k < id + 1
          ensures exists i :: 0 <= i < |rs| && rs[i].id == k
        {
          if k == id {
            assert rs[|before|].id == k;
          } else {
            var i :| 0 <= i < |before| && before[i].id == k;
            assert rs[i].id == k;
          }
        }
      }
      id := id + 1;
    }
  }

  /**
   `create(data)`: stores `data` under the next autoincrement id, which no
   row uses yet, and leaves every other row as it was.
   */
  function Insert<F>(t: Table<F>, d: Draft<F>): (r: (Table<F>, Row<F>))
    requires Valid(t)
    ensures Valid(r.0)
    ensures r.1.id !in t.rows && t.nextId <= r.1.id < r.0.nextId
    ensures DraftOf(r.1) == d
    ensures r.1.id in r.0.rows && r.0.rows[r.1.id] == r.1
    ensures SameElsewhere(t, r.0, r.1.id)
  {
    var row := Row(t.nextId, d.title, d.fields, d.password, d.userId);
    (Table(t.rows[row.id := row], t.nextId + 1), row)
  }

  /**
   `delete({ where: { id } })`: removes the row with that id whoever owns
   it. Prisma throws when no row matches; that is `None` here.
   */
  function Delete<F>(t: Table<F>, id: int): (r: Option<Table<F>>)
    requires Valid(t)
    ensures r.None? <==> SelectById(t, id) == {}
    ensures r.Some? ==> Valid(r.value) && SelectById(r.value, id) == {}
    ensures r.Some? ==> SameElsewhere(t, r.value, id) && r.value.nextId == t.nextId
  {
    if id in t.rows then
      assert id in SelectById(t, id);
      var t' := Table(t.rows - {id}, t.nextId);
      assert forall k :: k !in SelectById(t', id);
      Some(t')
    else
      assert forall k :: k !in SelectById(t, id);
      None
  }
}
