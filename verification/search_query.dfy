/**
 * The search_query scope shared by Department and User
 * (app/models/department.rb, app/models/user.rb): a free-text query is
 * compiled into a parenthesised OR-group of LIKE tests per term, the groups
 * joined with AND, and one bind argument per LIKE test.
 */
module SearchQuery {
  import opened Wrappers
  import opened RubyText
  import opened SqlLike
  import opened Seqs

  /** query.downcase.split(/\s+/) */
  function Terms(q: string): seq<string>
  {
    SplitWs(Downcase(q))
  }

  /** e.gsub('*', '%') */
  function StarToPercent(e: string): (r: string)
    ensures |r| == |e|
    ensures forall i :: 0 <= i < |e| ==> r[i] == (if e[i] == '*' then '%' else e[i])
  {
    seq(|e|, i requires 0 <= i < |e| => if e[i] == '*' then '%' else e[i])
  }

  /** ('%' + e.gsub('*', '%') + '%').gsub(/%+/, '%') */
  function TermPattern(e: string): (p: string)
    ensures |p| >= 1 && p[0] == '%' && p[|p| - 1] == '%'
    ensures forall i :: 0 <= i < |p| ==> p[i] != '*'
    ensures forall i :: 0 <= i < |p| - 1 ==> !(p[i] == '%' && p[i + 1] == '%')
  {
    var raw := "%" + StarToPercent(e) + "%";
    assert forall c :: c in raw ==> c != '*';
    CollapsePercents(raw)
  }

  function Patterns(terms: seq<string>): (ps: seq<string>)
    ensures |ps| == |terms|
    ensures forall k :: 0 <= k < |terms| ==> ps[k] == TermPattern(terms[k])
  {
    seq(|terms|, k requires 0 <= k < |terms| => TermPattern(terms[k]))
  }

  /** "(c1 LIKE ? OR c2 LIKE ? ...)" over the searched columns. */
  function OrGroup(columns: seq<string>): string
  {
    "(" + Join(seq(|columns|, j requires 0 <= j < |columns| => columns[j] + " LIKE ?"), " OR ") + ")"
  }

  /** terms.map { |e| [e] * n }.flatten */
  function BindArgs(patterns: seq<string>, n: nat): (binds: seq<string>)
    ensures |binds| == n * |patterns|
  {
    if patterns == [] then [] else Repeat(patterns[0], n) + BindArgs(patterns[1..], n)
  }

  datatype SearchCondition = SearchCondition(sql: string, binds: seq<string>)

  /**
   * The where-clause and bind arguments of search_query, or None when the
   * query is blank (the scope returns nil, which applies no filter).
   */
  function Compile(q: Option<string>, columns: seq<string>): (r: Option<SearchCondition>)
    ensures r.None? <==> Blank(q)
    ensures r.Some? ==> |r.value.binds| == |columns| * |Terms(q.value)|
    ensures r.Some? ==> Terms(q.value) != []
  {
    if Blank(q) then None
    else
      NotBlankHasWords(q.value);
      var terms := Terms(q.value);
      Some(SearchCondition(Join(Repeat(OrGroup(columns), |terms|), " AND "),
                           BindArgs(Patterns(terms), |columns|)))
  }

  /** A column value LIKE a pattern; NULL LIKE p is never true. */
  predicate LikeValue(v: Option<string>, p: string)
  {
    v.Some? && Like(v.value, p)
  }

  /**
   * How the database evaluates the clause on one row: every consecutive group
   * of |values| bind arguments is one OR-group, whose j-th test compares the
   * j-th searched value.
   */
  predicate BindsMatch(binds: seq<string>, values: seq<Option<string>>)
    requires |values| > 0
    decreases |binds|
  {
    |binds| < |values|
    || ((exists j :: 0 <= j < |values| && LikeValue(values[j], binds[j]))
        && BindsMatch(binds[|values|..], values))
  }

  // ---------------------------------------------------------------------------
  // Shape of the patterns

  /** A pattern matches exactly what the same text with '*' read as '%' matches. */
  lemma TermPatternMeaning(s: string, e: string)
    ensures Like(s, TermPattern(e)) == Like(s, "%" + StarToPercent(e) + "%")
  {
    CollapsePreservesLike(s, "%" + StarToPercent(e) + "%");
  }

  /** The empty first term of a query with leading white space becomes "%", which matches every row. */
  lemma EmptyTermMatchesAll(s: string)
    ensures TermPattern("") == "%"
    ensures Like(s, TermPattern(""))
  {
    assert "%" + StarToPercent("") + "%" == "%%";
    assert CollapsePercents("%%") == CollapsePercents("%");
    PercentMatchesAll(s);
  }

  predicate NoWildcards(t: string) {
    forall i :: 0 <= i < |t| ==> t[i] != '*' && t[i] != '%' && t[i] != '_'
  }

  /** A term without '*', '%' or '_' is a plain substring search. */
  lemma LiteralTermIsSubstring(s: string, e: string)
    requires NoWildcards(e)
    ensures Like(s, TermPattern(e)) <==> Contains(s, e)
  {
    assert StarToPercent(e) == e;
    TermPatternMeaning(s, e);
    SubstringPattern(s, e);
  }

  /** A query with leading white space has "%" as its first pattern. */
  lemma LeadingSpaceFirstTerm(q: string)
    requires !Blank(Some(q)) && IsSpace(q[0])
    ensures Terms(q) != []
    ensures Terms(q)[0] == "" && TermPattern(Terms(q)[0]) == "%"
  {
    NotBlankHasWords(q);
    EmptyTermMatchesAll("");
  }

  // ---------------------------------------------------------------------------
  // Placeholders and bind arguments

  function SumCounts(parts: seq<string>, c: char): nat
  {
    if parts == [] then 0 else CountOf(parts[0], c) + SumCounts(parts[1..], c)
  }

  lemma {:induction false} JoinCount(parts: seq<string>, sep: string, c: char)
    requires CountOf(sep, c) == 0
    ensures CountOf(Join(parts, sep), c) == SumCounts(parts, c)
    decreases |parts|
  {
    if |parts| == 1 {
      assert parts[1..] == [];
    } else if |parts| > 1 {
      JoinCount(parts[1..], sep, c);
      CountOfAppend(parts[0] + sep, Join(parts[1..], sep), c);
      CountOfAppend(parts[0], sep, c);
    }
  }

  lemma {:induction false} SumCountsRepeat(g: string, m: nat, c: char)
    ensures SumCounts(Repeat(g, m), c) == m * CountOf(g, c)
    decreases m
  {
    if m > 0 {
      assert Repeat(g, m)[1..] == Repeat(g, m - 1);
      SumCountsRepeat(g, m - 1, c);
    }
  }

  lemma {:induction false} SumCountsLikeClauses(columns: seq<string>)
    requires forall j :: 0 <= j < |columns| ==> '?' !in columns[j]
    ensures SumCounts(seq(|columns|, j requires 0 <= j < |columns| => columns[j] + " LIKE ?"), '?') == |columns|
    decreases |columns|
  {
    var clauses := seq(|columns|, j requires 0 <= j < |columns| => columns[j] + " LIKE ?");
    if columns != [] {
      SumCountsLikeClauses(columns[1..]);
      assert clauses[1..] == seq(|columns[1..]|, j requires 0 <= j < |columns[1..]| => columns[1..][j] + " LIKE ?");
      CountOfAppend(columns[0], " LIKE ?", '?');
      CountAbsent(columns[0], '?');
    }
  }

  lemma {:induction false} CountAbsent(s: string, c: char)
    requires c !in s
    ensures CountOf(s, c) == 0
    decreases |s|
  {
    if s != [] {
      CountAbsent(s[1..], c);
    }
  }

  /** Every OR-group holds one placeholder per searched column. */
  lemma OrGroupPlaceholders(columns: seq<string>)
    requires forall j :: 0 <= j < |columns| ==> '?' !in columns[j]
    ensures CountOf(OrGroup(columns), '?') == |columns|
  {
    var clauses := seq(|columns|, j requires 0 <= j < |columns| => columns[j] + " LIKE ?");
    JoinCount(clauses, " OR ", '?');
    SumCountsLikeClauses(columns);
    CountOfAppend("(" + Join(clauses, " OR "), ")", '?');
    CountOfAppend("(", Join(clauses, " OR "), '?');
  }

  /**
   * The where-clause has exactly as many '?' placeholders as there are bind
   * arguments: |columns| per term.
   */
  lemma PlaceholdersMatchBinds(q: string, columns: seq<string>)
    requires !Blank(Some(q))
    requires forall j :: 0 <= j < |columns| ==> '?' !in columns[j]
    ensures CountOf(Compile(Some(q), columns).value.sql, '?') == |Compile(Some(q), columns).value.binds|
  {
    var m := |Terms(q)|;
    JoinCount(Repeat(OrGroup(columns), m), " AND ", '?');
    SumCountsRepeat(OrGroup(columns), m, '?');
    OrGroupPlaceholders(columns);
  }

  /** The k-th group of n bind arguments repeats the k-th pattern. */
  lemma {:induction false} BindArgsAt(patterns: seq<string>, n: nat, k: nat, j: nat)
    requires k < |patterns| && j < n
    ensures k * n + j < |BindArgs(patterns, n)|
    ensures BindArgs(patterns, n)[k * n + j] == patterns[k]
    decreases k
  {
    if k > 0 {
      BindArgsAt(patterns[1..], n, k - 1, j);
      assert k * n + j == n + ((k - 1) * n + j);
    }
  }

  // ---------------------------------------------------------------------------
  // Meaning of the compiled condition

  /** The bind layout means: every pattern LIKE-matches at least one searched value. */
  lemma {:induction false} BindsMatchMeaning(patterns: seq<string>, values: seq<Option<string>>)
    requires |values| > 0
    ensures BindsMatch(BindArgs(patterns, |values|), values)
        <==> forall k :: 0 <= k < |patterns| ==> exists j :: 0 <= j < |values| && LikeValue(values[j], patterns[k])
    decreases |patterns|
  {
    var n := |values|;
    var b := BindArgs(patterns, n);
    if patterns != [] {
      BindsMatchMeaning(patterns[1..], values);
      assert b[n..] == BindArgs(patterns[1..], n);
      assert forall j :: 0 <= j < n ==> b[j] == patterns[0];
      assert forall k :: 1 <= k < |patterns| ==> patterns[k] == patterns[1..][k - 1];
    }
  }

  /** Every term of q LIKE-matches at least one of the searched values. */
  predicate EveryTermMatches(q: string, values: seq<Option<string>>)
  {
    forall k :: 0 <= k < |Terms(q)| ==> exists j :: 0 <= j < |values| && LikeValue(values[j], TermPattern(Terms(q)[k]))
  }

  /** A row satisfies the compiled query iff every term LIKE-matches one of its searched values. */
  lemma CompiledConditionMeaning(q: string, columns: seq<string>, values: seq<Option<string>>)
    requires !Blank(Some(q))
    requires |columns| == |values| > 0
    ensures BindsMatch(Compile(Some(q), columns).value.binds, values) <==> EveryTermMatches(q, values)
  {
    BindsMatchMeaning(Patterns(Terms(q)), values);
  }

  /**
   * For a query without wildcard characters, a row matches iff every term
   * of the query is a substring of one of its non-NULL searched values. The
   * empty leading term of a query that starts with white space is contained
   * in every value, so it only asks for one non-NULL value.
   */
  lemma LiteralQueryIsSubstringSearch(q: string, columns: seq<string>, values: seq<Option<string>>)
    requires !Blank(Some(q))
    requires NoWildcards(q)
    requires |columns| == |values| > 0
    ensures BindsMatch(Compile(Some(q), columns).value.binds, values)
        <==> forall k :: 0 <= k < |Terms(q)| ==>
               exists j :: 0 <= j < |values| && values[j].Some? && Contains(values[j].value, Terms(q)[k])
  {
    CompiledConditionMeaning(q, columns, values);
    var terms := Terms(q);
    forall k, j | 0 <= k < |terms| && 0 <= j < |values|
      ensures LikeValue(values[j], TermPattern(terms[k])) <==> values[j].Some? && Contains(values[j].value, terms[k])
    {
      if values[j].Some? {
        assert forall i :: 0 <= i < |terms[k]| ==> terms[k][i] in Downcase(q);
        LiteralTermIsSubstring(values[j].value, terms[k]);
      }
    }
  }

  /** A lowercase single word is its own one term. */
  lemma SingleWordTerms(w: string)
    requires IsWord(w)
    requires forall i :: 0 <= i < |w| ==> LowerChar(w[i]) == w[i]
    ensures Terms(w) == [w]
  {
    assert Downcase(w) == w;
    assert Join([w], " ") == w;
    WordsOfJoinSpaced([w]);
  }

  /**
   * Searching for one lowercase word without wildcards keeps a row iff one of
   * its searched values contains the word.
   */
  lemma SingleWordSearch(w: string, columns: seq<string>, values: seq<Option<string>>)
    requires IsWord(w) && !Blank(Some(w)) && NoWildcards(w)
    requires forall i :: 0 <= i < |w| ==> LowerChar(w[i]) == w[i]
    requires |columns| == |values| > 0
    ensures BindsMatch(Compile(Some(w), columns).value.binds, values)
        <==> exists j :: 0 <= j < |values| && values[j].Some? && Contains(values[j].value, w)
  {
    SingleWordTerms(w);
    LiteralQueryIsSubstringSearch(w, columns, values);
    assert Terms(w)[0] == w;
  }

  /** The query "unicorns" is one plain lower-case word with no wildcard. */
  lemma UnicornsIsAWord()
    ensures IsWord("unicorns") && !Blank(Some("unicorns")) && NoWildcards("unicorns")
    ensures forall i :: 0 <= i < |"unicorns"| ==> LowerChar("unicorns"[i]) == "unicorns"[i]
  {
    assert !IsUnicodeSpace("unicorns"[0]);
  }
}
