/**
 * The search translator: a query string becomes a per-field or a
 * whole-document ILIKE predicate over a row's JSON document.
 */
module Search {
  import opened Wrappers
  import opened Json
  import opened Like

  /**
   * "field:value" searches the text of one top-level field; a query without
   * ':' searches the text of the whole document.
   */
  datatype Query =
    | FieldQuery(field: string, value: string)
    | DocumentQuery(text: string)

  /** Position of the first ':' in s, or |s| when there is none. */
  function FirstColon(s: string): (i: nat)
    ensures i <= |s|
    ensures i < |s| ==> s[i] == ':'
    ensures ':' !in s[..i]
  {
    if s == [] then 0
    else if s[0] == ':' then 0
    else
      var j := FirstColon(s[1..]);
      assert s[..j + 1] == [s[0]] + s[1..][..j];
      j + 1
  }

  /** The query split at its first ':', as `query.split(":", 1)` does. */
  function Translate(query: string): (q: Query)
    ensures q.FieldQuery? <==> ':' in query
    ensures q.FieldQuery? ==> ':' !in q.field && query == q.field + ":" + q.value
    ensures q.DocumentQuery? ==> q.text == query
  {
    var i := FirstColon(query);
    if i < |query| then
      assert query == query[..i] + ":" + query[i + 1..];
      FieldQuery(query[..i], query[i + 1..])
    else
      assert query[..i] == query;
      DocumentQuery(query)
  }

  /** The value bound to the ILIKE parameter: the searched text between two '%'. */
  function BoundPattern(q: Query): (p: string)
    ensures WellFormedPattern(p)
    ensures |p| >= 2 && p[0] == '%' && p[|p| - 1] == '%'
  {
    var v := if q.FieldQuery? then q.value else q.text;
    WrappedIsWellFormed(v);
    "%" + v + "%"
  }

  /**
   * Whether a row document satisfies the translated predicate: in field mode
   * `data->>'field' ILIKE pattern`, where a NULL field text never matches;
   * otherwise `data::text ILIKE pattern`.
   */
  predicate Matches(d: Document, q: Query) {
    match q
    case FieldQuery(field, _) =>
      var t := FieldText(d, field);
      t.Some? && ILike(t.value, BoundPattern(q))
    case DocumentQuery(_) => ILike(DocumentText(d), BoundPattern(q))
  }

  /** The split is the only one with a colon-free field: the value keeps every later ':'. */
  lemma TranslateUnique(query: string, field: string, value: string)
    requires query == field + ":" + value && ':' !in field
    ensures Translate(query) == FieldQuery(field, value)
  {
    var q := Translate(query);
    assert query[|field|] == ':';
    var i := FirstColon(query);
    assert query[..|field|] == field;
    assert query[i + 1..] == value;
  }

  /**
   * The pattern bound to ILIKE is the text after the first ':' between two
   * '%', or the whole query between two '%' when it has no ':'.
   */
  lemma PatternOfQuery(query: string, field: string, value: string)
    ensures query == field + ":" + value && ':' !in field ==>
      Translate(query) == FieldQuery(field, value) && BoundPattern(Translate(query)) == "%" + value + "%"
    ensures ':' !in query ==> BoundPattern(Translate(query)) == "%" + query + "%"
  {
    if query == field + ":" + value && ':' !in field {
      TranslateUnique(query, field, value);
    }
  }

  /** "a:b:c" searches field "a" for "b:c". */
  lemma ValueMayContainColon()
    ensures Translate("a:b:c") == FieldQuery("a", "b:c")
  {
    TranslateUnique("a:b:c", "a", "b:c");
  }

  /** In field mode a row whose field is absent or JSON null never matches. */
  lemma MissingFieldNeverMatches(d: Document, field: string, value: string)
    requires Lookup(d, field).None? || Lookup(d, field) == Some(JNull)
    ensures !Matches(d, FieldQuery(field, value))
  {
  }

  /** An empty value matches exactly the rows whose field has a non-NULL text. */
  lemma EmptyValueMatchesRowsWithField(d: Document, field: string)
    ensures Matches(d, FieldQuery(field, "")) <==> FieldText(d, field).Some?
  {
    assert BoundPattern(FieldQuery(field, "")) == "%%";
    if FieldText(d, field).Some? {
      EmptyValueMatchesAll(FieldText(d, field).value);
    }
  }

  /** A field search with a wildcard-free value is case-insensitive substring search in that field. */
  lemma FieldSearchIsSubstring(d: Document, field: string, value: string)
    requires Literal(value)
    ensures Matches(d, FieldQuery(field, value)) <==>
      FieldText(d, field).Some? && Contains(Lower(FieldText(d, field).value), Lower(value))
  {
    if FieldText(d, field).Some? {
      LiteralILikeIsSubstring(FieldText(d, field).value, value);
    }
  }

  /** A query without ':' and without wildcards is case-insensitive substring search in the document text. */
  lemma DocumentSearchIsSubstring(d: Document, query: string)
    requires ':' !in query && Literal(query)
    ensures Matches(d, Translate(query)) <==> Contains(Lower(DocumentText(d)), Lower(query))
  {
    LiteralILikeIsSubstring(DocumentText(d), query);
  }

  /** The text of every member's value occurs in the text of the members. */
  lemma {:induction false} MemberValueInText(parent: Json, members: seq<Member>, k: int)
    requires forall j :: 0 <= j < |members| ==> members[j].value < parent
    requires 0 <= k < |members|
    ensures Contains(SerializeMembers(parent, members), Serialize(members[k].value))
    decreases |members|
  {
    var text := SerializeMembers(parent, members);
    var head := Quote(members[0].key) + ": ";
    var first := Serialize(members[0].value);
    if |members| == 1 {
      assert text == head + first + "";
      ContainsInfix(head, first, "");
    } else {
      var tail := SerializeMembers(parent, members[1..]);
      assert text == head + first + (", " + tail);
      if k == 0 {
        ContainsInfix(head, first, ", " + tail);
      } else {
        MemberValueInText(parent, members[1..], k - 1);
        assert members[1..][k - 1] == members[k];
        assert text == (head + first + ", ") + tail + "";
        ContainsInfix(head + first + ", ", tail, "");
        ContainsTrans(text, tail, Serialize(members[k].value));
      }
    }
  }

  /**
   * The text `->>` gives for a field occurs in the document's text, unless it
   * is a string that needs escaping.
   */
  lemma FieldTextInDocument(d: Document, field: string)
    requires FieldText(d, field).Some?
    requires Lookup(d, field).value.JStr? ==> Plain(Lookup(d, field).value.s)
    ensures Contains(DocumentText(d), FieldText(d, field).value)
  {
    var v := Lookup(d, field).value;
    var k :| 0 <= k < |d| && d[k] == Member(field, v);
    var j := JObject(d);
    var members := SerializeMembers(j, d);
    MemberValueInText(j, d, k);
    assert DocumentText(d) == "{" + members + "}";
    ContainsInfix("{", members, "}");
    ContainsTrans(DocumentText(d), members, Serialize(v));
    if v.JStr? {
      EscapePlain(v.s);
      assert Serialize(v) == "\"" + v.s + "\"";
      ContainsInfix("\"", v.s, "\"");
      ContainsTrans(DocumentText(d), Serialize(v), v.s);
    }
  }

  /**
   * The two search modes agree: a row that a wildcard-free field search finds
   * is also found by searching the whole document for the same value, unless
   * the field is a string that needs escaping.
   */
  lemma FieldHitImpliesDocumentHit(d: Document, field: string, value: string)
    requires Literal(value) && ':' !in value
    requires Lookup(d, field).Some? && Lookup(d, field).value.JStr? ==> Plain(Lookup(d, field).value.s)
    ensures Matches(d, FieldQuery(field, value)) ==> Matches(d, Translate(value))
  {
    if Matches(d, FieldQuery(field, value)) {
      FieldSearchIsSubstring(d, field, value);
      var t := FieldText(d, field).value;
      FieldTextInDocument(d, field);
      LowerKeepsContains(DocumentText(d), t);
      ContainsTrans(Lower(DocumentText(d)), Lower(t), Lower(value));
      DocumentSearchIsSubstring(d, value);
    }
  }

  /** '_' is not escaped: "f:_" matches every row whose field text is non-empty. */
  lemma UnderscoreValueIsWildcard(d: Document, field: string)
    requires FieldText(d, field).Some? && FieldText(d, field).value != []
    ensures Matches(d, FieldQuery(field, "_"))
  {
    assert BoundPattern(FieldQuery(field, "_")) == "%_%";
    UnderscoreMatchesAnyNonEmpty(FieldText(d, field).value);
  }

  /** "name:john" searches field "name" for "john", with no wildcard in it. */
  lemma NameJohnQuery()
    ensures Translate("name:john") == FieldQuery("name", "john")
  {
    TranslateUnique("name:john", "name", "john");
  }

  /** On a document {"name": name}, the query "name:john" is substring search in name. */
  lemma NameFieldSearch(d: Document, name: string)
    requires d == [Member("name", JStr(name))]
    ensures Matches(d, FieldQuery("name", "john")) <==> Contains(Lower(name), "john")
  {
    FieldSearchIsSubstring(d, "name", "john");
    assert FieldText(d, "name") == Some(name);
    assert Lower("john") == "john";
  }

  /** On a document {"name": name}, "name:john" matches exactly when name contains "john", ignoring case. */
  lemma NameJohnOn(d: Document, name: string)
    requires d == [Member("name", JStr(name))]
    ensures Matches(d, Translate("name:john")) <==> Contains(Lower(name), "john")
  {
    NameJohnQuery();
    NameFieldSearch(d, name);
  }

  /** "John" and "Johnny" contain "john" once lower-cased, "Anne" does not. */
  lemma JohnNamesContainJohn()
    ensures Contains(Lower("John"), "john") && Contains(Lower("Johnny"), "john")
    ensures !Contains(Lower("Anne"), "john")
  {
    var lowerJohn, lowerJohnny, lowerAnne := Lower("John"), Lower("Johnny"), Lower("Anne");
    assert lowerJohn[..4] == "john";
    assert OccursAt(lowerJohn, "john", 0);
    assert lowerJohnny[..4] == "john";
    assert OccursAt(lowerJohnny, "john", 0);
    assert lowerAnne[0] == 'a';
    assert !OccursAt(lowerAnne, "john", 0);
  }

  /** "name:john" finds {"name":"John"} and {"name":"Johnny"} but not {"name":"Anne"}. */
  lemma NameJohnExample(john: Document, johnny: Document, anne: Document)
    requires john == [Member("name", JStr("John"))]
    requires johnny == [Member("name", JStr("Johnny"))]
    requires anne == [Member("name", JStr("Anne"))]
    ensures Matches(john, Translate("name:john"))
    ensures Matches(johnny, Translate("name:john"))
    ensures !Matches(anne, Translate("name:john"))
  {
    NameJohnOn(john, "John");
    NameJohnOn(johnny, "Johnny");
    NameJohnOn(anne, "Anne");
    JohnNamesContainJohn();
  }
}
