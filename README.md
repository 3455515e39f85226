# Spreadsheet store: a verified model of the backend's CRUD layer

This project models the data layer of a small spreadsheet backend
(`backend/app/crud.py`). A spreadsheet is a row in the `spreadsheets`
metadata table plus a physical table named `spreadsheet_<id>`, which has a
GIN index `idx_spreadsheet_<id>_data`. Each row of that table is
`{id SERIAL, data JSONB, created_at}`. The layer has six operations:

- `create_spreadsheet` registers the spreadsheet and creates its table.
- `create_record`, `update_record` and `delete_record` change one row.
- `read_records` lists all rows.
- `search_records` filters rows by a query string. A query `field:value`
  becomes `data->>'field' ILIKE '%value%'`. Any other query becomes
  `data::text ILIKE '%query%'`.

Modules:

- `Decimal`: `str()` of an integer, and its inverse.
- `Naming`: table and index names.
- `Json`: row documents, their text and `->>` field text.
- `Like`: LIKE/ILIKE with `%`, `_` and the backslash escape.
- `Search`: the query split and the row predicate.
- `Tables`: one physical table and its INSERT/UPDATE/DELETE statements.
- `Store`: the `Database` class, which holds the metadata registry, its id
  sequence and the dynamic tables keyed by name. Its methods mutate these
  fields. The two reads are functions over them.
- `Scenarios`: call sequences and what a caller can conclude from them.

Choices worth knowing:

- Tables are keyed by their name, since `to_regclass` looks tables up by
  name. This makes injectivity of the table name the reason why an
  operation on one spreadsheet leaves every other spreadsheet's table
  unchanged.
- Provisioning is not atomic. The code commits the metadata row
  (crud.py:13), then creates the table and its index (crud.py:18-26) and
  commits them separately (crud.py:27). The rollback at crud.py:31 can
  only undo the second step. The model follows the code. A `Fault` parameter says
  which statement fails. After a failed table creation, the spreadsheet
  stays registered without a table.
- `CREATE TABLE` and `CREATE INDEX` share one transaction, so they succeed
  or fail together.
- The invariant `Store.Consistent` says that every existing table belongs
  to a registered id. This rules out a name collision at provisioning.

Inputs from outside the program are parameters:

- the clock (`CURRENT_TIMESTAMP`) is a `now` value;
- whether the backing store rejects a provisioning statement is the `fault`
  value.

## Model

| member | source | states |
|---|---|---|
| Decimal.NatToDecimal | backend/app/crud.py:17 | the decimal text of a natural number is a non-empty digit string with no leading zero, one digit exactly for numbers below ten |
| Decimal.IntToDecimal | backend/app/crud.py:17 | the text of an integer is non-empty and starts with '-' exactly when the integer is negative |
| Decimal.ParseInt | backend/app/crud.py:17 | reads an integer back from the decimal text the f-string writes; a parsed text is an optional minus sign followed by digits |
| Decimal.NatRoundTrip | backend/app/crud.py:17 | reading the digits of a natural number back gives the number |
| Decimal.IntRoundTrip | backend/app/crud.py:17 | parsing the text of any integer gives that integer back |
| Decimal.IntToDecimalInjective | backend/app/crud.py:17 | distinct integers have distinct texts |
| Naming.TableName | backend/app/crud.py:17 | defines the table name as "spreadsheet_" followed by the decimal id; its properties are the round trip and injectivity below |
| Naming.IndexName | backend/app/crud.py:26 | defines the index name as "idx_" + table name + "_data"; IndexNameInjective states its property |
| Naming.ParseTableName | backend/app/crud.py:17 | reads the id back from a table name; it gives an id only for a name that starts with "spreadsheet_" |
| Naming.TableNameRoundTrip | backend/app/crud.py:17 | the table name of an id resolves back to that id |
| Naming.TableNameInjective | backend/app/crud.py:17 | two ids share a table name exactly when they are equal |
| Naming.IndexNameInjective | backend/app/crud.py:26 | two ids share an index name exactly when they are equal |
| Json.Quote | backend/app/crud.py:116 | a string literal starts and ends with a double quote |
| Json.Escape | backend/app/crud.py:116 | escaping never shortens a string |
| Json.Serialize | backend/app/crud.py:116 | defines the text of a JSON value; FieldTextInDocument states what a caller can rely on |
| Json.DocumentText | backend/app/crud.py:116 | the text of a document is enclosed in braces |
| Json.Lookup | backend/app/crud.py:112 | a value is found exactly when some member has the key, and the value found is that member's value |
| Json.FieldText | backend/app/crud.py:112 | `data->>'field'` is SQL NULL exactly when the key is missing or holds JSON null; otherwise some member with that key holds a non-null value |
| Json.EscapePlain | backend/app/crud.py:116 | a string with no '"' or '\' is written without change |
| Like.Lower | backend/app/crud.py:112 | lower-casing keeps the length and leaves no upper-case letter; each upper-case letter becomes its lower-case form and every other character is unchanged |
| Like.Like | backend/app/crud.py:112-117 | defines LIKE with '%', '_' and the '\' escape; a pattern without those characters matches exactly the text equal to it |
| Like.ILike | backend/app/crud.py:112-117 | defines ILIKE as LIKE after lower-casing both sides; a pattern without wildcards matches exactly the texts equal to it up to case |
| Like.LowerIdempotent | backend/app/crud.py:112 | lower-casing twice is the same as lower-casing once |
| Like.ILikeIgnoresCase | backend/app/crud.py:112-117 | ILIKE gives the same answer when the text or the pattern is lower-cased first |
| Like.LowerKeepsWellFormed | backend/app/crud.py:112 | lower-casing a well-formed pattern keeps it well formed (ILIKE is defined) |
| Like.LowerKeepsLiteral | backend/app/crud.py:112 | lower-casing adds no wildcard or escape character |
| Like.LowerDistributes | backend/app/crud.py:112 | lower-casing a concatenation lower-cases each part |
| Like.WrappedIsWellFormed | backend/app/crud.py:113 | "%" + value + "%" is a well-formed pattern for every value, so no bound pattern ends in a lone escape |
| Like.ValuePercentIsWellFormed | backend/app/crud.py:113 | value + "%" is well formed for every value |
| Like.PercentMatchesAll | backend/app/crud.py:113 | "%" matches every text |
| Like.LeadingPercent | backend/app/crud.py:113 | a leading '%' matches exactly when the rest of the pattern matches some suffix |
| Like.LiteralHead | backend/app/crud.py:113 | a wildcard-free head matches exactly the same characters at the start of the text |
| Like.LiteralSearchIsSubstring | backend/app/crud.py:113 | for a wildcard-free value, LIKE '%value%' holds exactly when the value occurs in the text |
| Like.LiteralILikeIsSubstring | backend/app/crud.py:112-113 | for a wildcard-free value, ILIKE '%value%' holds exactly when the lower-cased value occurs in the lower-cased text |
| Like.EmptyValueMatchesAll | backend/app/crud.py:113 | the pattern "%%" of an empty value matches every text |
| Like.UnderscoreMatchesAnyNonEmpty | backend/app/crud.py:113 | "%_%" matches every non-empty text, because '_' is not escaped |
| Search.FirstColon | backend/app/crud.py:111 | the position found holds ':' and no earlier position does |
| Search.Translate | backend/app/crud.py:110-111 | a query is a field query exactly when it contains ':', its field has no ':', and field ":" value rebuilds the query; otherwise the whole query is searched |
| Search.BoundPattern | backend/app/crud.py:113-117 | the bound pattern is well formed and starts and ends with '%' |
| Search.TranslateUnique | backend/app/crud.py:110-111 | any split into a colon-free field, ':' and a value is the one Translate picks |
| Search.PatternOfQuery | backend/app/crud.py:110-117 | the bound pattern is "%" + the text after the first ':' + "%", or "%" + query + "%" when there is no ':' |
| Search.Matches | backend/app/crud.py:112-117 | defines the two WHERE predicates: ILIKE on the field text, where NULL never matches, or ILIKE on the document text; the lemmas below state its properties |
| Search.ValueMayContainColon | backend/app/crud.py:111 | "a:b:c" searches field "a" for "b:c" |
| Search.MissingFieldNeverMatches | backend/app/crud.py:112 | a row whose field is absent or JSON null never matches a field query |
| Search.EmptyValueMatchesRowsWithField | backend/app/crud.py:112-113 | an empty value matches exactly the rows whose field has a non-NULL text |
| Search.FieldSearchIsSubstring | backend/app/crud.py:112-113 | a wildcard-free field search is case-insensitive substring search in that field's text |
| Search.DocumentSearchIsSubstring | backend/app/crud.py:116-117 | a wildcard-free query without ':' is case-insensitive substring search in the document text |
| Search.MemberValueInText | backend/app/crud.py:116 | the text of each member's value occurs in the text of the members |
| Search.FieldTextInDocument | backend/app/crud.py:112-116 | the `->>` text of a field occurs in the `::text` of the document, unless it is a string that needs escaping |
| Search.FieldHitImpliesDocumentHit | backend/app/crud.py:110-117 | a row that a wildcard-free "field:value" search finds is also found by searching the whole document for the value, unless the field is a string that needs escaping |
| Search.UnderscoreValueIsWildcard | backend/app/crud.py:113 | "f:_" matches every row whose field text is non-empty |
| Search.NameJohnQuery | backend/app/crud.py:109-111 | "name:john" searches field "name" for "john" |
| Search.NameFieldSearch | backend/app/crud.py:112-113 | on a document with one string field "name", the query for "john" matches exactly when the lower-cased name contains "john" |
| Search.NameJohnOn | backend/app/crud.py:109-113 | on a document {"name": n}, "name:john" matches exactly when the lower-cased n contains "john" |
| Search.JohnNamesContainJohn | backend/app/crud.py:112 | lower-cased, "John" and "Johnny" contain "john" and "Anne" does not |
| Search.NameJohnExample | backend/app/crud.py:109-113 | "name:john" matches {"name":"John"} and {"name":"Johnny"} but not {"name":"Anne"} |
| Tables.Empty | backend/app/crud.py:18-24 | a new table is valid, has no rows and carries its index name |
| Tables.Insert | backend/app/crud.py:43-45 | an insert stores one row under the SERIAL's next value, an id not in use, with the given data and creation time, advances the SERIAL so no id is handed out twice even after a delete, and keeps every other row |
| Tables.UpdateWhere | backend/app/crud.py:73-75 | an update returns a row exactly when the id exists; that row keeps its id and creation time, takes the new data, and only it changes; otherwise the table is unchanged |
| Tables.DeleteWhere | backend/app/crud.py:92-94 | a delete reports one row exactly when the id existed, removes just that id and keeps every other row; otherwise the table is unchanged |
| Tables.Rows | backend/app/crud.py:59-60 | defines the rows a SELECT returns as the values of the table; InRows characterises them |
| Tables.InRows | backend/app/crud.py:59-60 | a row is returned by a read exactly when it is stored under its own id |
| Tables.InsertAddsOneRow | backend/app/crud.py:43-45 | an insert adds exactly the returned row, which was not there before, to what a read returns |
| Tables.UpdateReplacesOneRow | backend/app/crud.py:73-78 | an update replaces exactly the old row by the returned row in what a read returns |
| Tables.DeleteRemovesOneRow | backend/app/crud.py:92-96 | a delete removes exactly that id's row from what a read returns |
| Tables.DeleteTwiceFindsNothing | backend/app/crud.py:92-95 | deleting the same id a second time deletes no row |
| Store.Message | backend/app/crud.py:32-95 | defines the exception texts "Spreadsheet N does not exist", "Record N not found" (crud.py:77 and crud.py:95) and "Failed to create spreadsheet: "; MessageIdentifiesError states their property |
| Store.MessageIdentifiesError | backend/app/crud.py:32-40 | two errors give the same exception text exactly when they are the same error, ids included |
| Store.ReplaceTableKeepsConsistent | backend/app/crud.py:43-44 | replacing an existing table by a valid one keeps the store consistent |
| Store.ProvisionKeepsConsistent | backend/app/crud.py:11-27 | the next id is unregistered and has no table, and registering it, with or without its new empty table, keeps the store consistent |
| Store.Resolve | backend/app/crud.py:36-39 | defines the `to_regclass` check as a lookup of the name TableName(id) among the existing tables; ReplaceResolves and EveryTableResolves state its properties |
| Store.ReplaceResolves | backend/app/crud.py:36-44 | after one spreadsheet's table is replaced, that id resolves to the new table and every other id resolves as before |
| Store.Database.TableOf | backend/app/crud.py:38-39 | Resolve applied to the database's current tables |
| Store.Database.EveryTableResolves | backend/app/crud.py:38-39 | every existing table is the one that the id encoded in its name resolves to |
| Store.Database.TableImpliesRegistered | backend/app/crud.py:38-40 | a spreadsheet whose table exists is registered |
| Store.Database.ReadRecords | backend/app/crud.py:50-60 | a read fails with "does not exist" exactly when the table is missing, and otherwise returns the table's rows |
| Store.Database.ReadReturnsStoredRows | backend/app/crud.py:58-60 | a row is read exactly when it is stored under its id in that spreadsheet's table |
| Store.Database.ReadIgnoresTab | backend/app/crud.py:50-60 | the tab id has no effect on a read |
| Store.Database.SearchRecords | backend/app/crud.py:101-119 | a search fails exactly when the table is missing; otherwise it returns exactly the rows of the read that match the translated query, a subset of the read |
| Store.Database.CreateSpreadsheet | backend/app/crud.py:8-32 | a failed metadata insert changes nothing; otherwise the next id is registered and the counter advances; it succeeds exactly without a fault, then adds that id's empty table with its index, or else leaves the registration without a table; a new spreadsheet reads as empty |
| Store.Database.CreateRecord | backend/app/crud.py:34-48 | a missing table fails with "does not exist" and changes nothing; otherwise one fresh row holding the data is added and returned; the read gains exactly that row; the registry and every other table are unchanged |
| Store.Database.UpdateRecord | backend/app/crud.py:64-81 | it fails with "does not exist" or "not found" and changes nothing, and succeeds exactly when the record exists; then only that row's data changes, keeping its id and creation time; every other table is unchanged |
| Store.Database.DeleteRecord | backend/app/crud.py:83-99 | it fails with "does not exist" or "not found" and changes nothing, and succeeds exactly when the record exists; then it removes exactly that row and returns "Record deleted"; every other table is unchanged |
| Scenarios.ProvisionThenRead | backend/app/crud.py:8-60 | a spreadsheet just provisioned reads as empty |
| Scenarios.ProvisionInsertRead | backend/app/crud.py:8-60 | after provisioning and one insert, the read gives exactly the inserted row |
| Scenarios.TwoProvisionsGetDistinctTables | backend/app/crud.py:8-29 | two provisionings give distinct ids, table names and index names |
| Scenarios.FailedProvisionLeavesRegistration | backend/app/crud.py:8-40 | after a failed table creation the id stays registered without a table, and an insert into it fails with "does not exist" |
| Scenarios.DeleteTwice | backend/app/crud.py:83-99 | after a successful delete, deleting again fails with "Record N not found"; after a failed delete, a second one fails the same way |
| Scenarios.UpdateMissing | backend/app/crud.py:73-78 | updating an absent record fails with "not found" and the read is unchanged |

## Left out

- HTTP routing (`backend/app/main.py`) is not part of this model. It is a thin wrapper that maps every exception to status 400.
- The request and response schemas (`backend/app/schemas.py`) are not part of this model. A record's `data` is a JSON object value.
- The `Tab` entity (models.py:10-17) is not modelled. No query path consults it, and `tab_id` is accepted and ignored.
- The frontend grid component is not part of this model: it is UI code with a network fetch.
- The GIN index is modelled only by its name, because it has no effect on results.
- SQLAlchemy sessions, `commit`, `rollback` and `to_regclass` become atomic state changes on the `Database` fields. Only the split of `create_spreadsheet` into two commits is kept.
- `CURRENT_TIMESTAMP` and the metadata `created_at` default are a `now` parameter.
- Concurrency is not modelled. Each operation runs alone.
- Storage faults are modelled only for provisioning. Row statements are assumed to succeed, so the "Failed to create/read/update/delete/search records" wrappers are not modelled.
- Store.Message: the text after "Failed to create spreadsheet: " (the database's own error text) is left out.
- Store.Database.CreateSpreadsheet: when the metadata insert fails, the model leaves the id sequence unchanged. A PostgreSQL sequence may still advance in that case. The model's cheaper assumption is harmless, because consumed ids are never reused either way.
- JSONB text (`data::text`) is modelled as "key": value with ", " and ": " separators, in the document's own member order, with only '"' and '\' escaped. PostgreSQL's key reordering, duplicate-key removal and control-character escapes are left out.
- Json.Lookup: with duplicate keys the model reads the first member. JSONB keeps the last.
- JSON numbers are integers. Floating point is not modelled.
- Case folding is ASCII lower-casing. The database's locale-aware ILIKE folding is not modelled.
- `%` and `_` in a search value act as wildcards, and the backslash is an escape, as in PostgreSQL LIKE. The substring lemmas state this for wildcard-free values only.
- The field name in a field query is interpolated into SQL unescaped. Here it is an opaque key, so SQL injection through it is not modelled.
- Store.Database.ReadRecords: rows are returned as a set, so their order is not modelled. Duplicates cannot occur because ids are distinct.
