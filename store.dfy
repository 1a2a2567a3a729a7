/**
 * The SQLite tables the handlers of js/db.js read and write, as values: the
 * rows of a table by id, and the AUTOINCREMENT counter that hands out the
 * `lastID` of an insert. Every table of the application has an
 * `id INTEGER NOT NULL PRIMARY KEY AUTOINCREMENT` column, so a new row gets
 * one more than the largest id the table has ever used.
 */
module Store {
  /** A table: its rows by id, and the largest id it has ever handed out. */
  datatype Table<R> = Table(rows: map<int, R>, lastID: int)

  /** The empty table of a fresh database file. */
  function Empty<R>(): Table<R> {
    Table(map[], 0)
  }

  /** Every row id is positive and no larger than the counter. */
  predicate Valid<R>(t: Table<R>) {
    t.lastID >= 0 && forall id :: id in t.rows ==> 0 < id <= t.lastID
  }

  /** An INSERT: the row gets the next id, which is the statement's `lastID`. */
  function Insert<R>(t: Table<R>, row: R): (r: (Table<R>, int))
    requires Valid(t)
  {
    var id := t.lastID + 1;
    (Table(t.rows[id := row], id), id)
  }

  /** A `DELETE ... WHERE id = X` and its `changes`: the number of rows it removed. */
  function Delete<R>(t: Table<R>, id: int): (r: (Table<R>, nat)) {
    (Table(t.rows - {id}, t.lastID), if id in t.rows then 1 else 0)
  }

  /** A `DELETE ... WHERE` on another column: every row p accepts goes. */
  function DeleteWhere<R>(t: Table<R>, p: R -> bool): Table<R> {
    Table(map id | id in t.rows && !p(t.rows[id]) :: t.rows[id], t.lastID)
  }

  /** An `UPDATE ... WHERE id = X`: f rewrites the row, when there is one. */
  function Update<R>(t: Table<R>, id: int, f: R -> R): Table<R> {
    if id in t.rows then Table(t.rows[id := f(t.rows[id])], t.lastID) else t
  }

  // ------------------------------------------------------------------ laws

  /** An insert adds exactly one row, under an id no row had, and keeps the table valid. */
  lemma InsertFresh<R>(t: Table<R>, row: R)
    requires Valid(t)
    ensures Valid(Insert(t, row).0)
    ensures Insert(t, row).1 !in t.rows && Insert(t, row).1 > 0
    ensures Insert(t, row).0.rows == t.rows[Insert(t, row).1 := row]
  {
    assert t.lastID + 1 !in t.rows;
  }

  /** Ids are never reused: an id handed out after a delete is still new. */
  lemma InsertAfterDelete<R>(t: Table<R>, id: int, row: R)
    requires Valid(t)
    ensures Valid(Delete(t, id).0)
    ensures Insert(Delete(t, id).0, row).1 == Insert(t, row).1
    ensures id in t.rows ==> Insert(Delete(t, id).0, row).1 != id
  {
  }

  /** A delete reports one change exactly when the row was there, and touches no other row. */
  lemma DeleteChanges<R>(t: Table<R>, id: int)
    ensures Delete(t, id).1 == 1 <==> id in t.rows
    ensures id !in Delete(t, id).0.rows
    ensures forall k :: k != id ==> (k in Delete(t, id).0.rows <==> k in t.rows)
    ensures forall k :: k != id && k in t.rows ==> Delete(t, id).0.rows[k] == t.rows[k]
    ensures Valid(t) ==> Valid(Delete(t, id).0)
  {
  }

  /** A filtered delete removes exactly the rows p accepts and keeps the rest as they were. */
  lemma DeleteWhereRows<R>(t: Table<R>, p: R -> bool)
    ensures forall k :: k in DeleteWhere(t, p).rows <==> k in t.rows && !p(t.rows[k])
    ensures forall k :: k in DeleteWhere(t, p).rows ==> DeleteWhere(t, p).rows[k] == t.rows[k]
    ensures Valid(t) ==> Valid(DeleteWhere(t, p))
  {
  }

  /** An update keeps the set of ids and rewrites only the addressed row. */
  lemma UpdateRows<R>(t: Table<R>, id: int, f: R -> R)
    ensures Update(t, id, f).rows.Keys == t.rows.Keys
    ensures id in t.rows ==> Update(t, id, f).rows[id] == f(t.rows[id])
    ensures forall k :: k in t.rows && k != id ==> Update(t, id, f).rows[k] == t.rows[k]
    ensures Valid(t) ==> Valid(Update(t, id, f))
  {
  }
}
