/**
 * Call sequences against the store, with what a caller can conclude from the
 * operations' contracts alone.
 */
module Scenarios {
  import opened Wrappers
  import opened Naming
  import opened Json
  import opened Tables
  import opened Store

  /** A spreadsheet that was just provisioned resolves, and its table has no rows. */
  method ProvisionThenRead(db: Database, name: string, now: Timestamp) returns (rows: Result<set<Row>>)
    requires db.Valid()
    modifies db
    ensures db.Valid()
    ensures rows == Ok({})
  {
    var sheet := db.CreateSpreadsheet(name, now, NoFault);
    rows := db.ReadRecords(sheet.value.id, None);
  }

  /** On a fresh table, an insert followed by a read gives exactly the inserted row. */
  method ProvisionInsertRead(db: Database, name: string, data: Document, now: Timestamp)
    returns (row: Result<Row>, rows: Result<set<Row>>)
    requires db.Valid()
    modifies db
    ensures db.Valid()
    ensures row.Ok? && row.value.data == data && rows == Ok({row.value})
  {
    var sheet := db.CreateSpreadsheet(name, now, NoFault);
    var id := sheet.value.id;
    assert db.ReadRecords(id, None) == Ok({});
    ghost var before := db.ReadRecords(id, None).value;
    assert before == {};
    row := db.CreateRecord(id, data, now);
    assert row.Ok?;
    assert db.ReadRecords(id, None).value == before + {row.value};
    assert before + {row.value} == {row.value};
    rows := db.ReadRecords(id, None);
  }

  /** Two provisionings register two spreadsheets with two different tables. */
  method TwoProvisionsGetDistinctTables(db: Database, name1: string, name2: string, now: Timestamp)
    returns (first: Result<Spreadsheet>, second: Result<Spreadsheet>)
    requires db.Valid()
    modifies db
    ensures db.Valid()
    ensures first.Ok? && second.Ok?
    ensures first.value.id != second.value.id
    ensures TableName(first.value.id) != TableName(second.value.id)
    ensures IndexName(first.value.id) != IndexName(second.value.id)
  {
    first := db.CreateSpreadsheet(name1, now, NoFault);
    second := db.CreateSpreadsheet(name2, now, NoFault);
    TableNameInjective(first.value.id, second.value.id);
    IndexNameInjective(first.value.id, second.value.id);
  }

  /**
   * When the table cannot be created, the spreadsheet stays registered
   * without a table, and row operations on it fail closed.
   */
  method FailedProvisionLeavesRegistration(db: Database, name: string, data: Document, now: Timestamp)
    returns (sheet: Result<Spreadsheet>, insert: Result<Row>)
    requires db.Valid()
    modifies db
    ensures db.Valid()
    ensures sheet == Err(ProvisioningFailed)
    ensures old(db.nextSpreadsheetId) in db.spreadsheets
    ensures db.TableOf(old(db.nextSpreadsheetId)).None?
    ensures insert == Err(SpreadsheetMissing(old(db.nextSpreadsheetId)))
  {
    var id := db.nextSpreadsheetId;
    sheet := db.CreateSpreadsheet(name, now, TableCreationFails);
    insert := db.CreateRecord(id, data, now);
  }

  /** Deleting the same record twice: the second attempt reports it missing. */
  method DeleteTwice(db: Database, spreadsheetId: int, recordId: int) returns (first: Result<string>, second: Result<string>)
    requires db.Valid()
    modifies db
    ensures db.Valid()
    ensures first.Ok? ==> second == Err(RecordMissing(recordId))
    ensures first.Err? ==> second == first
  {
    first := db.DeleteRecord(spreadsheetId, recordId);
    ghost var between := db.TableOf(spreadsheetId);
    assert first.Ok? ==> between.Some? && recordId !in between.value.rows;
    second := db.DeleteRecord(spreadsheetId, recordId);
    if first.Err? {
      assert between == old(db.TableOf(spreadsheetId));
      if between.None? {
        assert first == Err(SpreadsheetMissing(spreadsheetId));
      } else {
        assert recordId !in between.value.rows;
        assert first == Err(RecordMissing(recordId));
      }
    }
  }

  /** Updating a record that is not there creates nothing. */
  method UpdateMissing(db: Database, spreadsheetId: int, recordId: int, data: Document) returns (r: Result<Row>)
    requires db.Valid() && db.TableOf(spreadsheetId).Some?
    requires recordId !in db.TableOf(spreadsheetId).value.rows
    modifies db
    ensures db.Valid()
    ensures r == Err(RecordMissing(recordId))
    ensures db.ReadRecords(spreadsheetId, None) == old(db.ReadRecords(spreadsheetId, None))
  {
    r := db.UpdateRecord(spreadsheetId, recordId, data);
  }
}
