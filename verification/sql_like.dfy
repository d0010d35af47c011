/**
 * The SQL <like predicate> of ISO/IEC 9075-2, subclause 8.5, with no ESCAPE
 * clause: '%' in the pattern matches any sequence of characters, '_' matches
 * exactly one character, and every other pattern character matches itself.
 */
module SqlLike {

  function Like(s: string, p: string): bool
    decreases |s| + |p|
  {
    if p == [] then s == []
    else if p[0] == '%' then Like(s, p[1..]) || (s != [] && Like(s[1..], p))
    else s != [] && (p[0] == '_' || p[0] == s[0]) && Like(s[1..], p[1..])
  }

  /** A pattern of wildcards only: the lone '%' matches every string. */
  lemma {:induction false} PercentMatchesAll(s: string)
    ensures Like(s, "%")
    decreases |s|
  {
    if s != [] {
      PercentMatchesAll(s[1..]);
    }
  }

  /** Two adjacent '%' match exactly what one does. */
  lemma {:induction false} DoublePercent(s: string, q: string)
    ensures Like(s, "%%" + q) == Like(s, "%" + q)
    decreases |s|
  {
    var p1 := "%" + q;
    var p2 := "%" + p1;
    assert p2 == "%%" + q;
    assert p2[1..] == p1 && p1[1..] == q;
    if s != [] {
      DoublePercent(s[1..], q);
    }
  }

  /** Patterns with the same first character and equivalent rests are equivalent. */
  lemma {:induction false} ConsCongruence(s: string, c: char, x: string, y: string)
    requires forall t :: Like(t, x) == Like(t, y)
    ensures Like(s, [c] + x) == Like(s, [c] + y)
    decreases |s|
  {
    assert ([c] + x)[1..] == x && ([c] + y)[1..] == y;
    if c == '%' && s != [] {
      ConsCongruence(s[1..], c, x, y);
    }
  }

  /**
   * gsub(/%+/, '%'): every run of '%' becomes a single '%'. The result keeps
   * the first and last character, uses only characters of p, and has no two
   * adjacent '%'.
   */
  function CollapsePercents(p: string): (r: string)
    ensures |r| <= |p|
    ensures p != [] ==> r != [] && r[0] == p[0] && r[|r| - 1] == p[|p| - 1]
    ensures forall i :: 0 <= i < |r| ==> r[i] in p
    ensures forall i :: 0 <= i < |r| - 1 ==> !(r[i] == '%' && r[i + 1] == '%')
  {
    if p == [] then []
    else if |p| >= 2 && p[0] == '%' && p[1] == '%' then CollapsePercents(p[1..])
    else [p[0]] + CollapsePercents(p[1..])
  }

  /** Collapsing runs of '%' never changes which strings a pattern matches. */
  lemma {:induction false} CollapsePreservesLike(s: string, p: string)
    ensures Like(s, CollapsePercents(p)) == Like(s, p)
    decreases |p|
  {
    if p == [] {
    } else if |p| >= 2 && p[0] == '%' && p[1] == '%' {
      CollapsePreservesLike(s, p[1..]);
      assert p == "%%" + p[2..] && p[1..] == "%" + p[2..];
      DoublePercent(s, p[2..]);
    } else {
      forall t ensures Like(t, CollapsePercents(p[1..])) == Like(t, p[1..]) {
        CollapsePreservesLike(t, p[1..]);
      }
      ConsCongruence(s, p[0], CollapsePercents(p[1..]), p[1..]);
      assert [p[0]] + p[1..] == p;
    }
  }

  /** A pattern text with no wildcard character. */
  predicate Literal(t: string) {
    forall i :: 0 <= i < |t| ==> t[i] != '%' && t[i] != '_'
  }

  /** t occurs in s. */
  predicate Contains(s: string, t: string) {
    exists i :: 0 <= i <= |s| && t <= s[i..]
  }

  /** A string lacking one of t's characters does not contain t. */
  lemma MissingCharNotContained(s: string, t: string, c: char)
    requires c in t && c !in s
    ensures !Contains(s, t)
  {
  }

  /** A string shorter than t does not contain t. */
  lemma ShorterNotContained(s: string, t: string)
    requires |s| < |t|
    ensures !Contains(s, t)
  {
  }

  /** Every string contains itself. */
  lemma ContainsSelf(s: string)
    ensures Contains(s, s)
  {
    assert s <= s[0..];
  }

  /** A literal followed by '%' matches exactly the strings that start with the literal. */
  lemma {:induction false} LiteralThenPercent(s: string, t: string)
    requires Literal(t)
    ensures Like(s, t + "%") <==> t <= s
    decreases |t|
  {
    if t == [] {
      assert t + "%" == "%";
      PercentMatchesAll(s);
    } else {
      assert (t + "%")[1..] == t[1..] + "%";
      if s != [] {
        LiteralThenPercent(s[1..], t[1..]);
        assert t <= s <==> t[0] == s[0] && t[1..] <= s[1..];
      }
    }
  }

  /** A leading '%' matches when the rest of the pattern matches some suffix. */
  lemma {:induction false} LeadingPercent(s: string, q: string)
    ensures Like(s, "%" + q) <==> exists i :: 0 <= i <= |s| && Like(s[i..], q)
    decreases |s|
  {
    var p := "%" + q;
    assert p[1..] == q;
    assert s[0..] == s;
    if s != [] {
      LeadingPercent(s[1..], q);
      if Like(s[1..], p) {
        var j :| 0 <= j <= |s[1..]| && Like(s[1..][j..], q);
        assert s[1..][j..] == s[j + 1..];
      }
      if i :| 0 < i <= |s| && Like(s[i..], q) {
        assert s[1..][i - 1..] == s[i..];
      }
    }
  }

  /** "%t%" with a literal t is a substring test. */
  lemma SubstringPattern(s: string, t: string)
    requires Literal(t)
    ensures Like(s, "%" + t + "%") <==> Contains(s, t)
  {
    assert "%" + t + "%" == "%" + (t + "%");
    LeadingPercent(s, t + "%");
    forall i | 0 <= i <= |s| ensures Like(s[i..], t + "%") <==> t <= s[i..] {
      LiteralThenPercent(s[i..], t);
    }
  }
}
