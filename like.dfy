/**
 * Pattern matching of SQL's LIKE and ILIKE as the database applies them to
 * the search parameter: '%' matches any run of characters, '_' any one
 * character, and '\' (the default escape character) makes the next character
 * literal. ILIKE compares after lower-casing; only ASCII letters are folded.
 */
module Like {
  function LowerChar(c: char): char {
    if 'A' <= c <= 'Z' then (c as int + 32) as char else c
  }

  /**
   * ASCII lower-casing: no upper-case letter is left, each upper-case letter
   * becomes its lower-case form and every other character stays as it is.
   */
  function Lower(s: string): (r: string)
    ensures |r| == |s|
    ensures forall i :: 0 <= i < |r| ==> !('A' <= r[i] <= 'Z')
    ensures forall i :: 0 <= i < |s| ==>
      if 'A' <= s[i] <= 'Z' then r[i] as int == s[i] as int + 32 else r[i] == s[i]
  {
    seq(|s|, i requires 0 <= i < |s| => LowerChar(s[i]))
  }

  predicate IsMeta(c: char) {
    c == '%' || c == '_' || c == '\\'
  }

  /** A string with no character that LIKE treats specially. */
  predicate Literal(s: string) {
    forall i :: 0 <= i < |s| ==> !IsMeta(s[i])
  }

  /** `v` occurs in `t` starting at position k. */
  predicate OccursAt(t: string, v: string, k: int) {
    0 <= k && k + |v| <= |t| && t[k..k + |v|] == v
  }

  /** `v` occurs in `t` as a contiguous substring. */
  predicate Contains(t: string, v: string) {
    exists k :: 0 <= k <= |t| && OccursAt(t, v, k)
  }

  /**
   * A pattern the database accepts: every escape character is followed by
   * the character it escapes (a trailing lone '\' is an error).
   */
  predicate WellFormedPattern(p: string)
    decreases |p|
  {
    if p == [] then true
    else if p[0] == '\\' then |p| >= 2 && WellFormedPattern(p[2..])
    else WellFormedPattern(p[1..])
  }

  /** `t LIKE p`. A pattern without '%', '_' or '\' matches only itself. */
  predicate Like(t: string, p: string)
    requires WellFormedPattern(p)
    ensures Literal(p) ==> (Like(t, p) <==> t == p)
    decreases |t| + |p|
  {
    if p == [] then t == []
    else if p[0] == '%' then Like(t, p[1..]) || (t != [] && Like(t[1..], p))
    else if p[0] == '_' then t != [] && Like(t[1..], p[1..])
    else if p[0] == '\\' then t != [] && t[0] == p[1] && Like(t[1..], p[2..])
    else
      assert Literal(p) ==> Literal(p[1..]) by {
        if Literal(p) {
          forall i | 0 <= i < |p[1..]| ensures !IsMeta(p[1..][i]) {
            assert p[1..][i] == p[i + 1];
          }
        }
      }
      assert t != [] && t[0] == p[0] && t[1..] == p[1..] ==> t == p by {
        if t != [] && t[0] == p[0] && t[1..] == p[1..] {
          assert t == [t[0]] + t[1..];
          assert p == [p[0]] + p[1..];
        }
      }
      t != [] && t[0] == p[0] && Like(t[1..], p[1..])
  }

  /** `t ILIKE p`. A pattern without wildcards matches exactly the texts equal to it up to case. */
  predicate ILike(t: string, p: string)
    requires WellFormedPattern(p)
    ensures Literal(p) ==> (ILike(t, p) <==> Lower(t) == Lower(p))
  {
    LowerKeepsWellFormed(p);
    if Literal(p) then LowerKeepsLiteral(p); Like(Lower(t), Lower(p))
    else Like(Lower(t), Lower(p))
  }

  /** Lower-casing leaves '%', '_' and '\' where they are. */
  lemma {:induction false} LowerKeepsWellFormed(p: string)
    requires WellFormedPattern(p)
    ensures WellFormedPattern(Lower(p))
    decreases |p|
  {
    if p != [] {
      var lp := Lower(p);
      if p[0] == '\\' {
        LowerKeepsWellFormed(p[2..]);
        assert lp[2..] == Lower(p[2..]);
      } else {
        LowerKeepsWellFormed(p[1..]);
        assert lp[1..] == Lower(p[1..]);
      }
    }
  }

  lemma LowerKeepsLiteral(v: string)
    requires Literal(v)
    ensures Literal(Lower(v))
  {
  }

  /** Lower-casing twice is lower-casing once. */
  lemma LowerIdempotent(s: string)
    ensures Lower(Lower(s)) == Lower(s)
  {
  }

  /** ILIKE does not see the case of the text nor of the pattern. */
  lemma ILikeIgnoresCase(t: string, p: string)
    requires WellFormedPattern(p)
    ensures ILike(t, p) == ILike(Lower(t), p)
    ensures WellFormedPattern(Lower(p)) && ILike(t, p) == ILike(t, Lower(p))
  {
    LowerIdempotent(t);
    LowerIdempotent(p);
    LowerKeepsWellFormed(p);
  }

  /** The middle of a concatenation occurs in it. */
  lemma ContainsInfix(a: string, b: string, c: string)
    ensures Contains(a + b + c, b)
  {
    assert (a + b + c)[|a|..|a| + |b|] == b;
    assert OccursAt(a + b + c, b, |a|);
  }

  /** Containment is transitive. */
  lemma ContainsTrans(t: string, u: string, v: string)
    requires Contains(t, u) && Contains(u, v)
    ensures Contains(t, v)
  {
    var i :| 0 <= i <= |t| && OccursAt(t, u, i);
    var j :| 0 <= j <= |u| && OccursAt(u, v, j);
    assert u == t[i..i + |u|];
    forall m | 0 <= m < |v| ensures t[i + j..i + j + |v|][m] == v[m] {
      assert t[i + j + m] == u[j + m];
    }
    assert t[i + j..i + j + |v|] == v;
    assert OccursAt(t, v, i + j);
  }

  /** Lower-casing keeps an occurrence. */
  lemma LowerKeepsContains(t: string, v: string)
    requires Contains(t, v)
    ensures Contains(Lower(t), Lower(v))
  {
    var k :| 0 <= k <= |t| && OccursAt(t, v, k);
    assert Lower(t)[k..k + |v|] == Lower(v);
    assert OccursAt(Lower(t), Lower(v), k);
  }

  lemma LowerDistributes(a: string, b: string)
    ensures Lower(a + b) == Lower(a) + Lower(b)
  {
    assert forall i :: 0 <= i < |a + b| ==> Lower(a + b)[i] == (Lower(a) + Lower(b))[i];
  }

  /** Any value, wrapped in '%' on both sides, gives a pattern the database accepts. */
  lemma {:induction false} WrappedIsWellFormed(v: string)
    ensures WellFormedPattern("%" + v + "%")
  {
    ValuePercentIsWellFormed(v);
    assert ("%" + v + "%")[1..] == v + "%";
  }

  lemma {:induction false} ValuePercentIsWellFormed(v: string)
    ensures WellFormedPattern(v + "%")
    decreases |v|
  {
    var p := v + "%";
    if v == [] {
      assert p[1..] == [];
    } else if v[0] == '\\' {
      if |v| >= 2 {
        ValuePercentIsWellFormed(v[2..]);
        assert p[2..] == v[2..] + "%";
      } else {
        assert p[2..] == [];
      }
    } else {
      ValuePercentIsWellFormed(v[1..]);
      assert p[1..] == v[1..] + "%";
    }
  }

  /** A lone '%' matches every text. */
  lemma {:induction false} PercentMatchesAll(t: string)
    ensures Like(t, "%")
    decreases |t|
  {
    if t != [] {
      PercentMatchesAll(t[1..]);
    }
  }

  /** Some suffix of t, starting at or after position 0, matches q. */
  predicate SuffixMatches(t: string, q: string)
    requires WellFormedPattern(q)
  {
    exists k :: 0 <= k <= |t| && Like(t[k..], q)
  }

  /** A leading '%' lets the rest of the pattern match at any position. */
  lemma {:induction false} LeadingPercent(t: string, q: string)
    requires WellFormedPattern(q)
    ensures WellFormedPattern("%" + q)
    ensures Like(t, "%" + q) <==> SuffixMatches(t, q)
    decreases |t|
  {
    var p := "%" + q;
    assert p[1..] == q;
    assert t[0..] == t;
    if t == [] {
      assert Like(t, p) == Like(t, q);
      if SuffixMatches(t, q) {
        var k :| 0 <= k <= |t| && Like(t[k..], q);
        assert k == 0;
      }
    } else {
      assert Like(t, p) == (Like(t, q) || Like(t[1..], p));
      LeadingPercent(t[1..], q);
      if Like(t[1..], p) {
        var k :| 0 <= k <= |t[1..]| && Like(t[1..][k..], q);
        assert t[1..][k..] == t[k + 1..];
        assert Like(t[k + 1..], q);
      }
      if SuffixMatches(t, q) && !Like(t, q) {
        var k :| 0 <= k <= |t| && Like(t[k..], q);
        assert k > 0;
        assert t[1..][k - 1..] == t[k..];
        assert SuffixMatches(t[1..], q);
      }
    }
  }

  /** A pattern that starts with literal text matches exactly the texts starting with it. */
  lemma {:induction false} LiteralHead(t: string, v: string, rest: string)
    requires Literal(v) && WellFormedPattern(rest)
    ensures WellFormedPattern(v + rest)
    ensures Like(t, v + rest) <==> |v| <= |t| && t[..|v|] == v && Like(t[|v|..], rest)
    decreases |v|
  {
    var p := v + rest;
    if v == [] {
      assert p == rest;
      assert t[..0] == [] && t[0..] == t;
    } else {
      assert p[0] == v[0] && p[1..] == v[1..] + rest;
      if t == [] {
        LiteralHead(t, v[1..], rest);
      } else {
        LiteralHead(t[1..], v[1..], rest);
        assert Like(t, p) == (t[0] == v[0] && Like(t[1..], p[1..]));
        if |v| <= |t| {
          assert t[1..][..|v| - 1] == t[1..|v|];
          assert t[..|v|] == [t[0]] + t[1..|v|];
          assert t[1..][|v| - 1..] == t[|v|..];
        }
      }
    }
  }

  /** For a literal value v, `t LIKE '%' || v || '%'` holds exactly when t contains v. */
  lemma LiteralSearchIsSubstring(t: string, v: string)
    requires Literal(v)
    ensures WellFormedPattern("%" + v + "%")
    ensures Like(t, "%" + v + "%") <==> Contains(t, v)
  {
    WrappedIsWellFormed(v);
    ValuePercentIsWellFormed(v);
    assert WellFormedPattern("%");
    assert "%" + v + "%" == "%" + (v + "%");
    LeadingPercent(t, v + "%");
    if Like(t, "%" + v + "%") {
      var k :| 0 <= k <= |t| && Like(t[k..], v + "%");
      LiteralHead(t[k..], v, "%");
      assert t[k..][..|v|] == t[k..k + |v|];
      assert OccursAt(t, v, k);
    }
    if Contains(t, v) {
      var k :| 0 <= k <= |t| && OccursAt(t, v, k);
      LiteralHead(t[k..], v, "%");
      assert t[k..][..|v|] == t[k..k + |v|];
      PercentMatchesAll(t[k..][|v|..]);
      assert Like(t[k..], v + "%");
    }
  }

  /** The case-insensitive form: ILIKE of a literal value is substring search after lower-casing. */
  lemma LiteralILikeIsSubstring(t: string, v: string)
    requires Literal(v)
    ensures WellFormedPattern("%" + v + "%")
    ensures ILike(t, "%" + v + "%") <==> Contains(Lower(t), Lower(v))
  {
    WrappedIsWellFormed(v);
    LowerDistributes("%" + v, "%");
    LowerDistributes("%", v);
    assert Lower("%") == "%";
    LowerKeepsLiteral(v);
    LiteralSearchIsSubstring(Lower(t), Lower(v));
  }

  /** The pattern "%%" of an empty value matches every text. */
  lemma EmptyValueMatchesAll(t: string)
    ensures WellFormedPattern("%%")
    ensures ILike(t, "%%")
  {
    assert "%%"[1..] == "%";
    assert Lower("%%") == "%%";
    PercentMatchesAll(Lower(t));
  }

  /** '_' in a value is a wildcard: the pattern "%_%" matches every non-empty text. */
  lemma UnderscoreMatchesAnyNonEmpty(t: string)
    requires t != []
    ensures WellFormedPattern("%_%")
    ensures ILike(t, "%_%")
  {
    var lt := Lower(t);
    assert "%_%"[1..] == "_%" && "_%"[1..] == "%";
    assert Lower("%_%") == "%_%";
    PercentMatchesAll(lt[1..]);
    assert Like(lt, "_%");
  }
}
