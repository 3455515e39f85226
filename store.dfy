/**
 * The registry and row store: the `spreadsheets` metadata table, its id
 * sequence, and the dynamically created `spreadsheet_<id>` tables, with the
 * operations create_spreadsheet, create_record, read_records,
 * update_record, delete_record and search_records.
 */
module Store {
  import opened Wrappers
  import opened Decimal
  import opened Naming
  import opened Json
  import opened Search
  import opened Tables

  /** A row of the `spreadsheets` metadata table. */
  datatype Spreadsheet = Spreadsheet(id: int, name: string, createdAt: Timestamp)

  /** The exceptions the operations raise. */
  datatype Error =
    | SpreadsheetMissing(spreadsheetId: int)
    | RecordMissing(recordId: int)
    | ProvisioningFailed

  datatype Result<T> = Ok(value: T) | Err(error: Error)

  /**
   * What the backing store does with the statements of one provisioning:
   * succeed, reject the metadata insert, or reject the CREATE TABLE / CREATE
   * INDEX pair (which share one transaction and roll back together).
   */
  datatype Fault = NoFault | MetadataInsertFails | TableCreationFails

  /** The exception text; the database's own error text after "Failed to ...: " is not modelled. */
  function Message(e: Error): string {
    match e
    case SpreadsheetMissing(id) => "Spreadsheet " + IntToDecimal(id) + " does not exist"
    case RecordMissing(id) => "Record " + IntToDecimal(id) + " not found"
    case ProvisioningFailed => "Failed to create spreadsheet: "
  }

  /** The message tells every error apart, ids included. */
  lemma MessageIdentifiesError(e1: Error, e2: Error)
    ensures Message(e1) == Message(e2) <==> e1 == e2
  {
    var m1, m2 := Message(e1), Message(e2);
    if m1 == m2 {
      assert m1[0] == m2[0];
      if e1.SpreadsheetMissing? && e2.SpreadsheetMissing? {
        var d1, d2 := IntToDecimal(e1.spreadsheetId), IntToDecimal(e2.spreadsheetId);
        assert m1[12..|m1| - 15] == d1;
        assert m2[12..|m2| - 15] == d2;
        IntToDecimalInjective(e1.spreadsheetId, e2.spreadsheetId);
      } else if e1.RecordMissing? && e2.RecordMissing? {
        var d1, d2 := IntToDecimal(e1.recordId), IntToDecimal(e2.recordId);
        assert m1[7..|m1| - 10] == d1;
        assert m2[7..|m2| - 10] == d2;
        IntToDecimalInjective(e1.recordId, e2.recordId);
      }
    }
  }

  /**
   * Ids come from the sequence; every dynamic table is well formed and is
   * the table of a registered spreadsheet. A registered spreadsheet need not
   * have a table: provisioning commits the metadata row first.
   */
  ghost predicate Consistent(sheets: map<int, Spreadsheet>, nextId: int, tables: map<string, Table>) {
    && nextId >= 1
    && (forall id :: id in sheets ==> 1 <= id < nextId && sheets[id].id == id)
    && (forall n :: n in tables ==> Tables.Valid(tables[n]))
    && (forall n :: n in tables ==>
          ParseTableName(n).Some? && ParseTableName(n).value in sheets
          && n == TableName(ParseTableName(n).value))
  }

  /** Replacing one existing table by a well-formed one keeps the store consistent. */
  lemma ReplaceTableKeepsConsistent(sheets: map<int, Spreadsheet>, nextId: int, tables: map<string, Table>,
                                    name: string, t: Table)
    requires Consistent(sheets, nextId, tables) && name in tables && Tables.Valid(t)
    ensures Consistent(sheets, nextId, tables[name := t])
  {
  }

  /** Registering the next id, and optionally creating its empty table, keeps the store consistent. */
  lemma ProvisionKeepsConsistent(sheets: map<int, Spreadsheet>, nextId: int, tables: map<string, Table>,
                                 sheet: Spreadsheet, withTable: bool)
    requires Consistent(sheets, nextId, tables) && sheet.id == nextId
    ensures nextId !in sheets && TableName(nextId) !in tables
    ensures Consistent(sheets[nextId := sheet], nextId + 1,
                       if withTable then tables[TableName(nextId) := Empty(IndexName(nextId))] else tables)
  {
    TableNameRoundTrip(nextId);
  }

  /** The table `to_regclass` finds among `tables` for a spreadsheet id: the one named after it. */
  function Resolve(tables: map<string, Table>, spreadsheetId: int): Option<Table> {
    var name := TableName(spreadsheetId);
    if name in tables then Some(tables[name]) else None
  }

  /** Replacing the table of one spreadsheet changes what that id resolves to, and no other id's table. */
  lemma ReplaceResolves(tables: map<string, Table>, spreadsheetId: int, t: Table)
    ensures Resolve(tables[TableName(spreadsheetId) := t], spreadsheetId) == Some(t)
    ensures forall other :: other != spreadsheetId ==>
      Resolve(tables[TableName(spreadsheetId) := t], other) == Resolve(tables, other)
  {
    forall other | other != spreadsheetId
      ensures Resolve(tables[TableName(spreadsheetId) := t], other) == Resolve(tables, other)
    {
      TableNameInjective(other, spreadsheetId);
    }
  }

  class Database {
    /** The `spreadsheets` metadata table, by id. */
    var spreadsheets: map<int, Spreadsheet>
    /** The next value of the metadata table's id sequence. */
    var nextSpreadsheetId: int
    /** The dynamic tables that exist, by name (what to_regclass looks up). */
    var tables: map<string, Table>

    ghost predicate Valid()
      reads this
    {
      Consistent(spreadsheets, nextSpreadsheetId, tables)
    }

    constructor ()
      ensures Valid()
      ensures spreadsheets == map[] && nextSpreadsheetId == 1 && tables == map[]
    {
      spreadsheets := map[];
      nextSpreadsheetId := 1;
      tables := map[];
    }

    /** The table a spreadsheet id resolves to, if `to_regclass` finds it. */
    function TableOf(spreadsheetId: int): Option<Table>
      reads this
    {
      Resolve(tables, spreadsheetId)
    }

    /** A spreadsheet whose table exists is registered. */
    lemma TableImpliesRegistered(spreadsheetId: int)
      requires Valid() && TableOf(spreadsheetId).Some?
      ensures spreadsheetId in spreadsheets
    {
      TableNameRoundTrip(spreadsheetId);
    }

    /** Every table that exists is the one its spreadsheet id resolves to. */
    lemma EveryTableResolves(name: string)
      requires Valid() && name in tables
      ensures ParseTableName(name).Some? && TableOf(ParseTableName(name).value) == Some(tables[name])
    {
    }

    /** read_records: every row of the table; `tabId` plays no part. */
    function ReadRecords(spreadsheetId: int, tabId: Option<int>): (r: Result<set<Row>>)
      requires Valid()
      reads this
      ensures r.Err? <==> TableOf(spreadsheetId).None?
      ensures r.Err? ==> r.error == SpreadsheetMissing(spreadsheetId)
      ensures r.Ok? ==> r.value == Rows(TableOf(spreadsheetId).value)
    {
      match TableOf(spreadsheetId)
      case None => Err(SpreadsheetMissing(spreadsheetId))
      case Some(t) => Ok(Rows(t))
    }

    /** A read returns exactly the rows stored under their ids, each once. */
    lemma ReadReturnsStoredRows(spreadsheetId: int, row: Row)
      requires Valid() && TableOf(spreadsheetId).Some?
      ensures ReadRecords(spreadsheetId, None).Ok?
      ensures row in ReadRecords(spreadsheetId, None).value <==>
        row.id in TableOf(spreadsheetId).value.rows && TableOf(spreadsheetId).value.rows[row.id] == row
    {
      InRows(TableOf(spreadsheetId).value, row);
    }

    /** The tab filter is not consulted. */
    lemma ReadIgnoresTab(spreadsheetId: int, tab1: Option<int>, tab2: Option<int>)
      requires Valid()
      ensures ReadRecords(spreadsheetId, tab1) == ReadRecords(spreadsheetId, tab2)
    {
    }

    /** search_records: the rows of the table that satisfy the translated query. */
    function SearchRecords(spreadsheetId: int, query: string): (r: Result<set<Row>>)
      requires Valid()
      reads this
      ensures r.Err? <==> TableOf(spreadsheetId).None?
      ensures r.Err? ==> r.error == SpreadsheetMissing(spreadsheetId)
      ensures r.Ok? ==> ReadRecords(spreadsheetId, None).Ok? && r.value <= ReadRecords(spreadsheetId, None).value
      ensures r.Ok? ==> forall row :: row in r.value <==>
        row in ReadRecords(spreadsheetId, None).value && Matches(row.data, Translate(query))
    {
      match TableOf(spreadsheetId)
      case None => Err(SpreadsheetMissing(spreadsheetId))
      case Some(t) =>
        var q := Translate(query);
        Ok(set row | row in Rows(t) && Matches(row.data, q))
    }

    /**
     * create_spreadsheet: register the spreadsheet and commit, then create its
     * table and index and commit again. A failure of the second step leaves
     * the registered spreadsheet in place without a table.
     */
    method CreateSpreadsheet(name: string, now: Timestamp, fault: Fault) returns (r: Result<Spreadsheet>)
      requires Valid()
      modifies this
      ensures Valid()
      ensures fault == MetadataInsertFails ==>
        && r == Err(ProvisioningFailed)
        && spreadsheets == old(spreadsheets) && nextSpreadsheetId == old(nextSpreadsheetId) && tables == old(tables)
      ensures fault != MetadataInsertFails ==>
        var id := old(nextSpreadsheetId);
        && id !in old(spreadsheets) && TableName(id) !in old(tables)
        && spreadsheets == old(spreadsheets)[id := Spreadsheet(id, name, now)]
        && nextSpreadsheetId == id + 1
        && (r.Ok? <==> fault == NoFault)
        && (r.Ok? ==> r.value == spreadsheets[id] && tables == old(tables)[TableName(id) := Empty(IndexName(id))])
        && (r.Err? ==> r.error == ProvisioningFailed && tables == old(tables))
      ensures r.Ok? ==> ReadRecords(r.value.id, None) == Ok({})
    {
      if fault == MetadataInsertFails {
        return Err(ProvisioningFailed);
      }
      // First commit: the metadata row and its generated id.
      var id := nextSpreadsheetId;
      var sheet := Spreadsheet(id, name, now);
      spreadsheets := spreadsheets[id := sheet];
      nextSpreadsheetId := id + 1;
      var tableName := TableName(id);
      ProvisionKeepsConsistent(old(spreadsheets), id, old(tables), sheet, fault == NoFault);
      if fault == TableCreationFails {
        // The rollback finds nothing left to undo: the metadata row stays.
        return Err(ProvisioningFailed);
      }
      // Second commit: the table and its GIN index.
      tables := tables[tableName := Empty(IndexName(id))];
      r := Ok(sheet);
    }

    /** create_record: insert one row into an existing table. */
    method CreateRecord(spreadsheetId: int, data: Document, now: Timestamp) returns (r: Result<Row>)
      requires Valid()
      modifies this
      ensures Valid()
      ensures spreadsheets == old(spreadsheets) && nextSpreadsheetId == old(nextSpreadsheetId)
      ensures old(TableOf(spreadsheetId)).None? ==>
        r == Err(SpreadsheetMissing(spreadsheetId)) && tables == old(tables)
      ensures old(TableOf(spreadsheetId)).Some? ==>
        var (t, row) := Insert(old(TableOf(spreadsheetId)).value, data, now);
        r == Ok(row) && tables == old(tables)[TableName(spreadsheetId) := t]
      ensures r.Ok? ==>
        && r.value.data == data && r.value.createdAt == now
        && r.value !in old(ReadRecords(spreadsheetId, None)).value
        && ReadRecords(spreadsheetId, None) == Ok(old(ReadRecords(spreadsheetId, None)).value + {r.value})
      ensures forall other :: other != spreadsheetId ==> TableOf(other) == old(TableOf(other))
    {
      var tableName := TableName(spreadsheetId);
      if tableName !in tables {
        return Err(SpreadsheetMissing(spreadsheetId));
      }
      var t := tables[tableName];
      var (t', row) := Insert(t, data, now);
      InsertAddsOneRow(t, data, now);
      ReplaceTableKeepsConsistent(spreadsheets, nextSpreadsheetId, tables, tableName, t');
      ReplaceResolves(tables, spreadsheetId, t');
      tables := tables[tableName := t'];
      r := Ok(row);
    }

    /** update_record: replace the data of one row, keeping its id and creation time. */
    method UpdateRecord(spreadsheetId: int, recordId: int, data: Document) returns (r: Result<Row>)
      requires Valid()
      modifies this
      ensures Valid()
      ensures spreadsheets == old(spreadsheets) && nextSpreadsheetId == old(nextSpreadsheetId)
      ensures old(TableOf(spreadsheetId)).None? ==> r == Err(SpreadsheetMissing(spreadsheetId))
      ensures old(TableOf(spreadsheetId)).Some? && recordId !in old(TableOf(spreadsheetId)).value.rows ==>
        r == Err(RecordMissing(recordId))
      ensures r.Ok? <==> old(TableOf(spreadsheetId)).Some? && recordId in old(TableOf(spreadsheetId)).value.rows
      ensures r.Err? ==> tables == old(tables)
      ensures r.Ok? ==>
        var t := old(TableOf(spreadsheetId)).value;
        && r.value == Row(recordId, data, t.rows[recordId].createdAt)
        && tables == old(tables)[TableName(spreadsheetId) := t.(rows := t.rows[recordId := r.value])]
        && ReadRecords(spreadsheetId, None) == Ok(Rows(t) - {t.rows[recordId]} + {r.value})
      ensures forall other :: other != spreadsheetId ==> TableOf(other) == old(TableOf(other))
    {
      var tableName := TableName(spreadsheetId);
      if tableName !in tables {
        return Err(SpreadsheetMissing(spreadsheetId));
      }
      var t := tables[tableName];
      var (t', returned) := UpdateWhere(t, recordId, data);
      if returned.None? {
        // The UPDATE matched no row, so its commit changed nothing.
        return Err(RecordMissing(recordId));
      }
      UpdateReplacesOneRow(t, recordId, data);
      ReplaceTableKeepsConsistent(spreadsheets, nextSpreadsheetId, tables, tableName, t');
      ReplaceResolves(tables, spreadsheetId, t');
      tables := tables[tableName := t'];
      r := Ok(returned.value);
    }

    /** delete_record: remove one row. */
    method DeleteRecord(spreadsheetId: int, recordId: int) returns (r: Result<string>)
      requires Valid()
      modifies this
      ensures Valid()
      ensures spreadsheets == old(spreadsheets) && nextSpreadsheetId == old(nextSpreadsheetId)
      ensures old(TableOf(spreadsheetId)).None? ==> r == Err(SpreadsheetMissing(spreadsheetId))
      ensures old(TableOf(spreadsheetId)).Some? && recordId !in old(TableOf(spreadsheetId)).value.rows ==>
        r == Err(RecordMissing(recordId))
      ensures r.Ok? <==> old(TableOf(spreadsheetId)).Some? && recordId in old(TableOf(spreadsheetId)).value.rows
      ensures r.Err? ==> tables == old(tables)
      ensures r.Ok? ==>
        var t := old(TableOf(spreadsheetId)).value;
        && r.value == "Record deleted"
        && recordId in t.rows
        && tables == old(tables)[TableName(spreadsheetId) := DeleteWhere(t, recordId).0]
        && ReadRecords(spreadsheetId, None) == Ok(Rows(t) - {t.rows[recordId]})
      ensures r.Ok? ==> TableOf(spreadsheetId).Some? && recordId !in TableOf(spreadsheetId).value.rows
      ensures forall other :: other != spreadsheetId ==> TableOf(other) == old(TableOf(other))
    {
      var tableName := TableName(spreadsheetId);
      if tableName !in tables {
        return Err(SpreadsheetMissing(spreadsheetId));
      }
      var t := tables[tableName];
      var (t', count) := DeleteWhere(t, recordId);
      if count == 0 {
        return Err(RecordMissing(recordId));
      }
      DeleteRemovesOneRow(t, recordId);
      ReplaceTableKeepsConsistent(spreadsheets, nextSpreadsheetId, tables, tableName, t');
      ReplaceResolves(tables, spreadsheetId, t');
      tables := tables[tableName := t'];
      r := Ok("Record deleted");
    }
  }
}
