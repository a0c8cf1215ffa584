/**
 * PostgreSQL's `ILIKE` as the search statement of Repository.java uses it:
 * `%` matches any run of characters, `_` exactly one, a backslash makes the
 * next pattern character literal, and letters compare without regard to case.
 */
module Ilike {

  /** Lower case of one character, for the Latin and the basic Cyrillic alphabets. */
  function Fold(c: char): char
  {
    if 'A' <= c <= 'Z' then (c as int + 32) as char
    else if '\U{0410}' <= c <= '\U{042F}' then (c as int + 32) as char
    else if c == '\U{0401}' then '\U{0451}'
    else c
  }

  function FoldAll(s: string): string
  {
    seq(|s|, i requires 0 <= i < |s| => Fold(s[i]))
  }

  predicate IsWildcard(c: char)
  {
    c == '%' || c == '_' || c == '\\'
  }

  /** A pattern with no wildcard and no escape character: it can only match itself. */
  predicate Literal(p: string)
  {
    forall i :: 0 <= i < |p| ==> !IsWildcard(p[i])
  }

  /**
   * `s LIKE pat` with the default escape character. A pattern that ends in a
   * lone escape character is an error in PostgreSQL; the patterns the
   * repository builds always end in `%`, so it never arises and reads as no match.
   */
  function Like(s: string, pat: string): bool
    decreases |pat|, |s|
  {
    if pat == [] then s == []
    else if pat[0] == '%' then Like(s, pat[1..]) || (s != [] && Like(s[1..], pat))
    else if pat[0] == '_' then s != [] && Like(s[1..], pat[1..])
    else if pat[0] == '\\' then |pat| >= 2 && s != [] && s[0] == pat[1] && Like(s[1..], pat[2..])
    else s != [] && s[0] == pat[0] && Like(s[1..], pat[1..])
  }

  /** `s ILIKE pat`: LIKE on the lower-cased text and pattern. */
  predicate ILike(s: string, pat: string)
  {
    Like(FoldAll(s), FoldAll(pat))
  }

  predicate OccursAt(t: string, p: string, i: int)
  {
    0 <= i && i + |p| <= |t| && t[i..i + |p|] == p
  }

  /** Case-insensitive substring containment, the reference meaning of the search. */
  predicate ContainsIgnoringCase(s: string, p: string)
  {
    exists i :: 0 <= i <= |s| && OccursAt(FoldAll(s), FoldAll(p), i)
  }

  /** A lone `%` matches every text. */
  lemma {:induction false} PercentMatchesAll(t: string)
    ensures Like(t, "%")
  {
    if t != [] {
      PercentMatchesAll(t[1..]);
    }
  }

  /** A literal prefix of the pattern consumes the same characters of the text. */
  lemma {:induction false} LiteralPrefix(t: string, q: string, rest: string)
    requires Literal(q)
    ensures Like(t, q + rest) <==> |q| <= |t| && t[..|q|] == q && Like(t[|q|..], rest)
  {
    if q == [] {
      assert q + rest == rest;
      assert t[..0] == q && t[0..] == t;
    } else {
      var p := q + rest;
      assert p[0] == q[0] && !IsWildcard(q[0]);
      assert p[1..] == q[1..] + rest;
      assert Literal(q[1..]) by {
        forall i | 0 <= i < |q[1..]| ensures !IsWildcard(q[1..][i]) {
          assert q[1..][i] == q[i + 1];
        }
      }
      if t != [] {
        LiteralPrefix(t[1..], q[1..], rest);
        if |q| <= |t| {
          assert t[1..][|q| - 1..] == t[|q|..];
          assert t[..|q|] == [t[0]] + t[1..][..|q| - 1];
          assert q == [q[0]] + q[1..];
        }
      }
    }
  }

  /** A leading `%` lets the rest of the pattern match any suffix of the text. */
  lemma {:induction false} LeadingPercent(t: string, r: string)
    ensures Like(t, "%" + r) <==> exists k :: 0 <= k <= |t| && Like(t[k..], r)
  {
    var p := "%" + r;
    assert p[0] == '%' && p[1..] == r;
    if t == [] {
      assert Like(t, p) <==> Like(t, r);
      if Like(t, r) {
        assert t[0..] == t;
      }
    } else {
      LeadingPercent(t[1..], r);
      if Like(t, p) {
        if Like(t, r) {
          assert t[0..] == t;
        } else {
          var k :| 0 <= k <= |t[1..]| && Like(t[1..][k..], r);
          assert t[1..][k..] == t[k + 1..];
        }
      }
      if exists k :: 0 <= k <= |t| && Like(t[k..], r) {
        var k :| 0 <= k <= |t| && Like(t[k..], r);
        if k == 0 {
          assert t[0..] == t;
        } else {
          assert t[1..][k - 1..] == t[k..];
        }
      }
    }
  }

  /** `t LIKE '%' || q || '%'` for a literal `q` is substring containment. */
  lemma {:induction false} SurroundedLiteralIsContainment(t: string, q: string)
    requires Literal(q)
    ensures Like(t, "%" + q + "%") <==> exists i :: OccursAt(t, q, i)
  {
    assert "%" + q + "%" == "%" + (q + "%");
    LeadingPercent(t, q + "%");
    if Like(t, "%" + q + "%") {
      var k :| 0 <= k <= |t| && Like(t[k..], q + "%");
      LiteralPrefix(t[k..], q, "%");
      assert t[k..][..|q|] == t[k..k + |q|];
      assert OccursAt(t, q, k);
    }
    if exists i :: OccursAt(t, q, i) {
      var i :| OccursAt(t, q, i);
      LiteralPrefix(t[i..], q, "%");
      assert t[i..][..|q|] == t[i..i + |q|];
      PercentMatchesAll(t[i..][|q|..]);
      assert Like(t[i..], q + "%");
    }
  }

  /**
   * The search condition `column ILIKE '%' || p || '%'` holds exactly when the
   * column contains `p` case-insensitively, for a `p` free of `%`, `_` and `\`.
   */
  lemma SearchPatternIsContainment(s: string, p: string)
    requires Literal(p)
    ensures ILike(s, "%" + p + "%") <==> ContainsIgnoringCase(s, p)
  {
    assert FoldAll("%" + p + "%") == "%" + FoldAll(p) + "%";
    assert Literal(FoldAll(p));
    SurroundedLiteralIsContainment(FoldAll(s), FoldAll(p));
  }

  /** An empty search text makes the pattern `%%`, which matches every text. */
  lemma EmptySearchMatchesAll(s: string)
    ensures ILike(s, "%" + "" + "%")
  {
    assert Literal("");
    SearchPatternIsContainment(s, "");
    assert OccursAt(FoldAll(s), FoldAll(""), 0);
  }
}
