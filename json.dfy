/**
 * The JSON documents stored in a spreadsheet table's `data` column, the
 * text the database shows for a document (`data::text`) and the text of one
 * top-level field (`data->>'field'`).
 */
module Json {
  import opened Wrappers
  import opened Decimal

  datatype Json =
    | JNull
    | JBool(b: bool)
    | JNum(n: int)
    | JStr(s: string)
    | JArray(items: seq<Json>)
    | JObject(members: seq<Member>)

  datatype Member = Member(key: string, value: Json)

  /** A row's payload: the members of a JSON object, as a Python dict supplies them. */
  type Document = seq<Member>

  /** A string literal: quotes around the text, '"' and '\' escaped. */
  function Quote(s: string): (r: string)
    ensures |r| >= 2 && r[0] == '"' && r[|r| - 1] == '"'
  {
    "\"" + Escape(s) + "\""
  }

  function Escape(s: string): (r: string)
    ensures |r| >= |s|
  {
    if s == [] then ""
    else (if s[0] == '"' || s[0] == '\\' then ['\\', s[0]] else [s[0]]) + Escape(s[1..])
  }

  /** The text of a JSON value, with ", " and ": " as separators. */
  function Serialize(j: Json): string
    decreases j
  {
    match j
    case JNull => "null"
    case JBool(b) => if b then "true" else "false"
    case JNum(n) => IntToDecimal(n)
    case JStr(s) => Quote(s)
    case JArray(items) => "[" + SerializeItems(j, items) + "]"
    case JObject(members) => "{" + SerializeMembers(j, members) + "}"
  }

  function SerializeItems(ghost parent: Json, items: seq<Json>): string
    requires forall k :: 0 <= k < |items| ==> items[k] < parent
    decreases parent, |items|
  {
    if items == [] then ""
    else Serialize(items[0]) + (if |items| == 1 then "" else ", " + SerializeItems(parent, items[1..]))
  }

  function SerializeMembers(ghost parent: Json, members: seq<Member>): string
    requires forall k :: 0 <= k < |members| ==> members[k].value < parent
    decreases parent, |members|
  {
    if members == [] then ""
    else
      Quote(members[0].key) + ": " + Serialize(members[0].value)
      + (if |members| == 1 then "" else ", " + SerializeMembers(parent, members[1..]))
  }

  /** The text of a whole row document, what `data::text` yields. */
  function DocumentText(d: Document): (r: string)
    ensures |r| >= 2 && r[0] == '{' && r[|r| - 1] == '}'
  {
    Serialize(JObject(d))
  }

  /** The value stored under `key`, if the document has that key. */
  function Lookup(d: Document, key: string): (r: Option<Json>)
    ensures r.Some? <==> exists k :: 0 <= k < |d| && d[k].key == key
    ensures r.Some? ==> exists k :: 0 <= k < |d| && d[k] == Member(key, r.value)
  {
    if d == [] then None
    else if d[0].key == key then Some(d[0].value)
    else Lookup(d[1..], key)
  }

  /**
   * `data->>'key'`: a string field gives its text without quotes, a JSON null
   * or a missing key gives SQL NULL (None), any other value gives its text.
   */
  function FieldText(d: Document, key: string): (r: Option<string>)
    ensures r.None? <==> Lookup(d, key).None? || Lookup(d, key) == Some(JNull)
    ensures r.Some? ==> exists k :: 0 <= k < |d| && d[k].key == key && d[k].value != JNull
  {
    match Lookup(d, key)
    case None => None
    case Some(JNull) => None
    case Some(JStr(s)) => Some(s)
    case Some(v) => Some(Serialize(v))
  }

  /** A string with nothing to escape. */
  predicate Plain(s: string) {
    forall i :: 0 <= i < |s| ==> s[i] != '"' && s[i] != '\\'
  }

  /** A string with nothing to escape is written as it is. */
  lemma {:induction false} EscapePlain(s: string)
    requires Plain(s)
    ensures Escape(s) == s
  {
    if s != [] {
      assert Plain(s[1..]) by {
        forall i | 0 <= i < |s[1..]| ensures s[1..][i] != '"' && s[1..][i] != '\\' {
          assert s[1..][i] == s[i + 1];
        }
      }
      EscapePlain(s[1..]);
      assert s == [s[0]] + s[1..];
    }
  }
}
