/**
 * Names of the physical objects provisioned for a spreadsheet: the table
 * "spreadsheet_<id>" and its GIN index "idx_spreadsheet_<id>_data".
 */
module Naming {
  import opened Wrappers
  import opened Decimal

  const TablePrefix: string := "spreadsheet_"
  const IndexPrefix: string := "idx_"
  const IndexSuffix: string := "_data"

  /** The physical table of spreadsheet `id`. */
  function TableName(id: int): string {
    TablePrefix + IntToDecimal(id)
  }

  /** The GIN index built over the `data` column of that table. */
  function IndexName(id: int): string {
    IndexPrefix + TableName(id) + IndexSuffix
  }

  /** The spreadsheet id a table name refers to, if it has the table-name shape. */
  function ParseTableName(name: string): (r: Option<int>)
    ensures r.Some? ==> |name| > |TablePrefix| && name[..|TablePrefix|] == TablePrefix
  {
    if |name| >= |TablePrefix| && name[..|TablePrefix|] == TablePrefix
    then ParseInt(name[|TablePrefix|..])
    else None
  }

  /** Every table name reads back as the id it was built from. */
  lemma TableNameRoundTrip(id: int)
    ensures ParseTableName(TableName(id)) == Some(id)
  {
    var name := TableName(id);
    assert name[..|TablePrefix|] == TablePrefix;
    assert name[|TablePrefix|..] == IntToDecimal(id);
    IntRoundTrip(id);
  }

  /** Distinct spreadsheet ids never share a physical table. */
  lemma TableNameInjective(a: int, b: int)
    ensures TableName(a) == TableName(b) <==> a == b
  {
    TableNameRoundTrip(a);
    TableNameRoundTrip(b);
  }

  /** Distinct spreadsheet ids never share an index name. */
  lemma IndexNameInjective(a: int, b: int)
    ensures IndexName(a) == IndexName(b) <==> a == b
  {
    if IndexName(a) == IndexName(b) {
      var na, nb := IndexName(a), IndexName(b);
      var lo, hia, hib := |IndexPrefix|, |na| - |IndexSuffix|, |nb| - |IndexSuffix|;
      assert na[lo..hia] == TableName(a);
      assert nb[lo..hib] == TableName(b);
      TableNameInjective(a, b);
    }
  }
}
