/**
 * One physical spreadsheet table: rows `{id, data, created_at}` keyed by
 * their SERIAL primary key, and the statements run against it (INSERT,
 * UPDATE ... WHERE id, DELETE ... WHERE id), each with its RETURNING result.
 */
module Tables {
  import opened Wrappers
  import opened Json

  /** The value CURRENT_TIMESTAMP had when a row was inserted; opaque to the model. */
  type Timestamp = int

  datatype Row = Row(id: int, data: Document, createdAt: Timestamp)

  /** The rows by id, the next value of the id SERIAL, and the name of the GIN index on `data`. */
  datatype Table = Table(rows: map<int, Row>, nextId: int, index: string)

  /** Every row sits under its own id, and every id was drawn from the SERIAL. */
  predicate Valid(t: Table) {
    && t.nextId >= 1
    && forall k :: k in t.rows ==> t.rows[k].id == k && 1 <= k < t.nextId
  }

  /** The rows a `SELECT id, data, created_at` returns, in no particular order. */
  function Rows(t: Table): set<Row> {
    set k | k in t.rows :: t.rows[k]
  }

  /** A freshly created table: no rows, SERIAL starting at 1. */
  function Empty(index: string): (t: Table)
    ensures Valid(t) && Rows(t) == {} && t.index == index
  {
    Table(map[], 1, index)
  }

  /** `INSERT INTO t (data) VALUES (data) RETURNING id, data, created_at`. */
  function Insert(t: Table, data: Document, now: Timestamp): (r: (Table, Row))
    requires Valid(t)
    ensures Valid(r.0) && r.0.index == t.index
    ensures r.1.id !in t.rows && r.1.data == data && r.1.createdAt == now
    ensures r.1.id == t.nextId && r.0.nextId == t.nextId + 1
    ensures r.0.rows == t.rows[r.1.id := r.1]
  {
    var row := Row(t.nextId, data, now);
    (Table(t.rows[t.nextId := row], t.nextId + 1, t.index), row)
  }

  /**
   * `UPDATE t SET data = data WHERE id = id RETURNING id, data, created_at`:
   * the updated row, or None when no row has that id.
   */
  function UpdateWhere(t: Table, id: int, data: Document): (r: (Table, Option<Row>))
    requires Valid(t)
    ensures Valid(r.0) && r.0.nextId == t.nextId && r.0.index == t.index
    ensures r.1.Some? <==> id in t.rows
    ensures r.1.None? ==> r.0 == t
    ensures r.1.Some? ==>
      && r.1.value.id == id && r.1.value.data == data && r.1.value.createdAt == t.rows[id].createdAt
      && r.0.rows == t.rows[id := r.1.value]
  {
    if id in t.rows then
      var row := t.rows[id].(data := data);
      (t.(rows := t.rows[id := row]), Some(row))
    else
      (t, None)
  }

  /** `DELETE FROM t WHERE id = id RETURNING id`: the table without that row, and the row count. */
  function DeleteWhere(t: Table, id: int): (r: (Table, nat))
    requires Valid(t)
    ensures Valid(r.0) && r.0.nextId == t.nextId && r.0.index == t.index
    ensures r.1 == (if id in t.rows then 1 else 0)
    ensures r.1 == 0 ==> r.0 == t
    ensures id !in r.0.rows && r.0.rows.Keys == t.rows.Keys - {id}
    ensures forall k :: k in r.0.rows ==> r.0.rows[k] == t.rows[k]
  {
    if id in t.rows then (t.(rows := t.rows - {id}), 1) else (t, 0)
  }

  /** In a valid table, a row is read back exactly when it is stored under its own id. */
  lemma InRows(t: Table, x: Row)
    requires Valid(t)
    ensures x in Rows(t) <==> x.id in t.rows && t.rows[x.id] == x
  {
    if x in Rows(t) {
      var k :| k in t.rows && t.rows[k] == x;
    }
  }

  /** An insert adds exactly the returned row to what a full read returns. */
  lemma InsertAddsOneRow(t: Table, data: Document, now: Timestamp)
    requires Valid(t)
    ensures var (t', row) := Insert(t, data, now);
      row !in Rows(t) && Rows(t') == Rows(t) + {row}
  {
    var (t', row) := Insert(t, data, now);
    InRows(t, row);
    forall x ensures x in Rows(t') <==> x in Rows(t) + {row} {
      InRows(t, x);
      InRows(t', x);
    }
  }

  /** An update changes one row's data and nothing else a read can see. */
  lemma UpdateReplacesOneRow(t: Table, id: int, data: Document)
    requires Valid(t) && id in t.rows
    ensures var (t', row) := UpdateWhere(t, id, data);
      row.Some? && Rows(t') == Rows(t) - {t.rows[id]} + {row.value}
  {
    var (t', row) := UpdateWhere(t, id, data);
    forall x ensures x in Rows(t') <==> x in Rows(t) - {t.rows[id]} + {row.value} {
      InRows(t, x);
      InRows(t', x);
    }
  }

  /** A delete takes away exactly the row with that id from what a full read returns. */
  lemma DeleteRemovesOneRow(t: Table, id: int)
    requires Valid(t) && id in t.rows
    ensures Rows(DeleteWhere(t, id).0) == Rows(t) - {t.rows[id]}
  {
    var t' := DeleteWhere(t, id).0;
    forall x ensures x in Rows(t') <==> x in Rows(t) - {t.rows[id]} {
      InRows(t, x);
      InRows(t', x);
    }
  }

  /** A second delete of the same id finds no row. */
  lemma DeleteTwiceFindsNothing(t: Table, id: int)
    requires Valid(t)
    ensures DeleteWhere(DeleteWhere(t, id).0, id).1 == 0
  {
  }
}
