/**
 * One database table as the routes see it through the ORM: rows keyed by an
 * auto-incremented integer primary key. `nextId` is the table's AUTO_INCREMENT
 * counter; it only grows, so an id is never handed out twice, not even after
 * the row that had it is deleted.
 */
module Store {
  import opened Outcomes

  datatype Table<T> = Table(rows: map<int, T>, nextId: int)
  {
    /** Every stored id was handed out by the counter before. */
    ghost predicate Valid() {
      1 <= nextId && forall id :: id in rows ==> 1 <= id < nextId
    }

    /** `Model.create(...)`: stores `row` under the next counter value. */
    function Insert(row: T): (r: (Table<T>, int))
      requires Valid()
      ensures r.0.Valid()
      ensures r.1 == nextId && r.1 !in rows
      ensures forall id :: id in rows ==> id < r.1
      ensures r.0.rows == rows[r.1 := row] && r.0.nextId == r.1 + 1
    {
      (Table(rows[nextId := row], nextId + 1), nextId)
    }

    /** `Model.get(Model.id == id)`: the row, or `None` where the ORM raises `DoesNotExist`. */
    function Get(id: int): (r: Option<T>)
      ensures r.Some? <==> id in rows
      ensures r.Some? ==> r.value == rows[id]
    {
      if id in rows then Some(rows[id]) else None
    }

    /** `instance.save()` on a row that was read first: the row is overwritten, its id kept. */
    function Save(id: int, row: T): (t: Table<T>)
      requires Valid() && id in rows
      ensures t.Valid()
      ensures t.rows.Keys == rows.Keys && t.rows[id] == row && t.nextId == nextId
      ensures forall other :: other in rows && other != id ==> t.rows[other] == rows[other]
    {
      Table(rows[id := row], nextId)
    }

    /** `Model.delete().where(Model.id == id).execute()`: the table without that row, and the number of rows removed. */
    function DeleteWhere(id: int): (r: (Table<T>, nat))
      requires Valid()
      ensures r.0.Valid()
      ensures r.1 == if id in rows then 1 else 0
      ensures r.0.rows == rows - {id} && r.0.nextId == nextId
    {
      (Table(rows - {id}, nextId), if id in rows then 1 else 0)
    }
  }

  /** A freshly created table: no rows, counter at 1. */
  function EmptyTable<T>(): (t: Table<T>)
    ensures t.Valid() && t.rows == map[] && t.nextId == 1
  {
    Table(map[], 1)
  }

  /** Ids handed out by consecutive inserts are strictly increasing. */
  lemma InsertIdsIncrease<T>(t: Table<T>, a: T, b: T)
    requires t.Valid()
    ensures t.Insert(a).0.Insert(b).1 > t.Insert(a).1
  {
  }

  /** A row read back right after `create` is the row that was stored; after a delete the id is gone for good. */
  lemma CreateThenGetThenDelete<T>(t: Table<T>, row: T)
    requires t.Valid()
    ensures var (t1, id) := t.Insert(row);
            t1.Get(id) == Some(row) && t1.DeleteWhere(id).0.Get(id) == None
            && t1.DeleteWhere(id).0.Insert(row).1 != id
  {
  }
}
