/**
 * The title filter as the database evaluates it. SQLAlchemy renders
 * `title.ilike(f"%{q}%")` on SQLite as `lower(title) LIKE lower('%q%')`, with the search
 * text spliced into the pattern unescaped, so a '%' or '_' typed into the search box acts
 * as a wildcard rather than as itself.
 */
module SqlLike {
  import opened Text

  /** SQL LIKE without an ESCAPE clause: '%' matches any run of characters, '_' any one character. */
  predicate Like(pattern: string, text: string)
    decreases |pattern| + |text|
  {
    if pattern == [] then text == []
    else if pattern[0] == '%' then Like(pattern[1..], text) || (text != [] && Like(pattern, text[1..]))
    else text != [] && (pattern[0] == '_' || pattern[0] == text[0]) && Like(pattern[1..], text[1..])
  }

  /** The filter of GET /subcategories and GET /articles as written. */
  predicate IlikeContains(text: string, query: string)
  {
    Like("%" + Lower(query) + "%", Lower(text))
  }

  predicate NoWildcards(s: string)
  {
    '%' !in s && '_' !in s
  }

  lemma {:induction false} PercentMatchesAnything(t: string)
    ensures Like("%", t)
    decreases |t|
  {
    assert "%"[1..] == "";
    if t != [] {
      PercentMatchesAnything(t[1..]);
    }
  }

  /** A wildcard-free head of a pattern matches exactly itself. */
  lemma {:induction false} LiteralPrefix(q: string, rest: string, t: string)
    requires NoWildcards(q)
    ensures Like(q + rest, t) <==> |q| <= |t| && t[..|q|] == q && Like(rest, t[|q|..])
    decreases |q|
  {
    if q == [] {
      assert q + rest == rest && t[|q|..] == t;
    } else {
      var p := q + rest;
      assert p[0] == q[0] && p[1..] == q[1..] + rest;
      assert q[0] != '%' && q[0] != '_' by { assert q[0] in q; }
      assert NoWildcards(q[1..]) by {
        forall c | c in q[1..] ensures c in q { var i :| 0 <= i < |q[1..]| && q[1..][i] == c; assert q[i + 1] == c; }
      }
      if t != [] {
        LiteralPrefix(q[1..], rest, t[1..]);
        if |q| <= |t| {
          assert t[..|q|] == [t[0]] + t[1..][..|q| - 1];
          assert t[1..][|q| - 1..] == t[|q|..];
        }
      }
    }
  }

  /** A leading '%' lets the rest of the pattern start at any position. */
  lemma {:induction false} LeadingPercent(p: string, t: string)
    ensures Like("%" + p, t) <==> exists i :: 0 <= i <= |t| && Like(p, t[i..])
    decreases |t|
  {
    var pat := "%" + p;
    assert pat[0] == '%' && pat[1..] == p;
    assert t[0..] == t;
    if t != [] {
      LeadingPercent(p, t[1..]);
      if i :| 0 <= i <= |t| - 1 && Like(p, t[1..][i..]) {
        assert t[1..][i..] == t[i + 1..];
      }
      if j :| 0 <= j <= |t| && Like(p, t[j..]) {
        if j > 0 {
          assert t[1..][j - 1..] == t[j..];
        }
      }
    }
  }

  /** Lower-casing neither makes nor removes a wildcard. */
  lemma LowerKeepsWildcards(s: string)
    requires NoWildcards(s)
    ensures NoWildcards(Lower(s))
  {
  }

  /** For search text without '%' or '_', the filter as written is the case-insensitive substring test. */
  lemma IlikeIsSubstringWithoutWildcards(text: string, query: string)
    requires NoWildcards(query)
    ensures IlikeContains(text, query) <==> ContainsIgnoringCase(text, query)
  {
    var q := Lower(query);
    var t := Lower(text);
    LowerKeepsWildcards(query);
    assert "%" + q + "%" == "%" + (q + "%");
    LeadingPercent(q + "%", t);
    forall i | 0 <= i <= |t| ensures Like(q + "%", t[i..]) <==> OccursAt(q, t, i) {
      LiteralPrefix(q, "%", t[i..]);
      if i + |q| <= |t| {
        assert t[i..][..|q|] == t[i..i + |q|];
        PercentMatchesAnything(t[i..][|q|..]);
      }
    }
  }

  /** As written, '_' in the search text matches any character: searching "a_c" lists a title "ABC". */
  lemma UnderscoreIsAWildcard()
    ensures IlikeContains("ABC", "a_c")
    ensures !ContainsIgnoringCase("ABC", "a_c")
  {
    LowerExample("ABC", "abc");
    LowerExample("a_c", "a_c");
    assert Like("", "");
    assert Like("%", "") by { assert "%"[1..] == ""; }
    assert Like("c%", "c") by { assert "c%"[1..] == "%" && "c"[1..] == ""; }
    assert Like("_c%", "bc") by { assert "_c%"[1..] == "c%" && "bc"[1..] == "c"; }
    assert Like("a_c%", "abc") by { assert "a_c%"[1..] == "_c%" && "abc"[1..] == "bc"; }
    assert Like("%a_c%", "abc") by { assert "%a_c%"[1..] == "a_c%"; }
    assert "%" + "a_c" + "%" == "%a_c%";
    assert !IsSubstring("a_c", "abc") by {
      forall i | 0 <= i <= 3 ensures !OccursAt("a_c", "abc", i) {
        if i == 0 { assert "abc"[0..3][1] == 'b'; }
      }
    }
  }
}
