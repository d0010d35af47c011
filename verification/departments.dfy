/**
 * The Department model: validations, the search_query, with_school_id,
 * with_averages and with_avg_* scopes, and the dependent destroy of its
 * courses. (sorted_by and options_for_sorted_by are in SortOptions.)
 */
module Departments {
  import opened Wrappers
  import opened RubyText
  import opened SqlLike
  import opened Seqs
  import opened Validations
  import opened SearchQuery
  import opened Schools
  import opened Courses
  import opened Reviews

  datatype Department = Department(id: nat, name: Option<string>, shortName: Option<string>, schoolId: Option<nat>)

  // ---------------------------------------------------------------------------
  // Validations

  function DepartmentShortNameKey(d: Department): (Option<nat>, Option<string>) { (d.schoolId, Folded(d.shortName)) }

  /** The errors of saving d next to the stored departments, in the order the validations run. */
  function DepartmentErrors(stored: seq<Department>, d: Department, schoolIds: set<nat>): (errs: seq<FieldError>)
    ensures errs == [] <==>
      !Blank(d.name) && !Blank(d.shortName)
      && !Taken(stored, DepartmentShortNameKey, DepartmentShortNameKey(d))
      && d.schoolId.Some? && d.schoolId.value in schoolIds
  {
    PresenceOf("name", d.name)
    + PresenceOf("short_name", d.shortName)
    + UniquenessOf("short_name", stored, DepartmentShortNameKey, d)
    + ParentExists("school", d.schoolId, schoolIds)
  }

  predicate DepartmentRowValid(d: Department, schoolIds: set<nat>)
  {
    !Blank(d.name) && !Blank(d.shortName) && d.schoolId.Some? && d.schoolId.value in schoolIds
  }

  /** The table invariant: short names are unique ignoring case within a school. */
  predicate ValidDepartments(t: seq<Department>, schoolIds: set<nat>)
  {
    (forall i :: 0 <= i < |t| ==> DepartmentRowValid(t[i], schoolIds))
    && UniqueBy(t, DepartmentShortNameKey)
  }

  /** Creating a department keeps the table valid exactly when it has no validation errors. */
  lemma CreateDepartment(t: seq<Department>, d: Department, schoolIds: set<nat>)
    requires ValidDepartments(t, schoolIds)
    ensures ValidDepartments(t + [d], schoolIds) <==> DepartmentErrors(t, d, schoolIds) == []
  {
    UniqueAppend(t, DepartmentShortNameKey, d);
    assert (t + [d])[|t|] == d;
    assert forall i :: 0 <= i < |t| ==> (t + [d])[i] == t[i];
  }

  /** The same short name, even in another letter case, is taken in the same school and free in another. */
  lemma ShortNameScopedToSchool(t: seq<Department>, d: Department, i: nat)
    requires i < |t| && d.shortName.Some? && t[i].shortName.Some?
    requires Downcase(d.shortName.value) == Downcase(t[i].shortName.value)
    ensures d.schoolId == t[i].schoolId ==> FieldError("short_name", AlreadyTaken) in DepartmentErrors(t, d, {})
    ensures |t| == 1 && d.schoolId != t[i].schoolId ==> !Taken(t, DepartmentShortNameKey, DepartmentShortNameKey(d))
  {
    if d.schoolId == t[i].schoolId {
      assert DepartmentShortNameKey(t[i]) == DepartmentShortNameKey(d);
    }
  }

  // ---------------------------------------------------------------------------
  // search_query: joins(:school), three LIKE tests per term

  const DepartmentSearchColumns: seq<string> :=
    ["LOWER(departments.name)", "LOWER(departments.short_name)", "LOWER(schools.name)"]

  /** The school row joined to a department by its school_id. */
  function SchoolOf(schools: seq<School>, id: Option<nat>): (r: Option<School>)
    ensures r.Some? ==> r.value in schools && id == Some(r.value.id)
    ensures r.None? ==> forall s :: s in schools ==> id != Some(s.id)
  {
    if schools == [] then None
    else if id == Some(schools[0].id) then Some(schools[0])
    else SchoolOf(schools[1..], id)
  }

  /** The searched values of a joined row: lower(name), lower(short_name), lower(school name). */
  function DepartmentSearchValues(d: Department, s: School): seq<Option<string>>
  {
    [Folded(d.name), Folded(d.shortName), Folded(s.name)]
  }

  /** The row survives the inner join and passes the compiled where-clause. */
  predicate DepartmentMatches(cond: SearchCondition, schools: seq<School>, d: Department)
  {
    var s := SchoolOf(schools, d.schoolId);
    s.Some? && BindsMatch(cond.binds, DepartmentSearchValues(d, s.value))
  }

  /** search_query: a blank query applies no filter (not even the join); otherwise the matching departments, in order. */
  function SearchDepartments(q: Option<string>, depts: seq<Department>, schools: seq<School>): (r: seq<Department>)
    ensures Blank(q) ==> r == depts
    ensures forall d :: d in r ==> d in depts
  {
    match Compile(q, DepartmentSearchColumns)
    case None => depts
    case Some(cond) => Filter(depts, (d: Department) => DepartmentMatches(cond, schools, d))
  }

  /**
   * A department is found iff it has a school and every term LIKE-matches its
   * lowercased name, short name or school name.
   */
  lemma SearchDepartmentsMeaning(q: string, depts: seq<Department>, schools: seq<School>, d: Department)
    requires !Blank(Some(q))
    ensures d in SearchDepartments(Some(q), depts, schools) <==>
      d in depts && SchoolOf(schools, d.schoolId).Some?
      && EveryTermMatches(q, DepartmentSearchValues(d, SchoolOf(schools, d.schoolId).value))
  {
    var cond := Compile(Some(q), DepartmentSearchColumns).value;
    assert SearchDepartments(Some(q), depts, schools) == Filter(depts, (e: Department) => DepartmentMatches(cond, schools, e));
    var s := SchoolOf(schools, d.schoolId);
    if s.Some? {
      CompiledConditionMeaning(q, DepartmentSearchColumns, DepartmentSearchValues(d, s.value));
    }
  }

  /** A single lowercase word finds the joined departments one of whose searched values contains it. */
  lemma SingleWordMatchesDepartment(w: string, schools: seq<School>, d: Department)
    requires IsWord(w) && !Blank(Some(w)) && NoWildcards(w)
    requires forall i :: 0 <= i < |w| ==> LowerChar(w[i]) == w[i]
    ensures DepartmentMatches(Compile(Some(w), DepartmentSearchColumns).value, schools, d) <==>
      SchoolOf(schools, d.schoolId).Some?
      && exists j :: 0 <= j < 3
           && DepartmentSearchValues(d, SchoolOf(schools, d.schoolId).value)[j].Some?
           && Contains(DepartmentSearchValues(d, SchoolOf(schools, d.schoolId).value)[j].value, w)
  {
    var s := SchoolOf(schools, d.schoolId);
    if s.Some? {
      SingleWordSearch(w, DepartmentSearchColumns, DepartmentSearchValues(d, s.value));
    }
  }

  /** No searched value of the joined row contains w. */
  predicate NoValueContains(schools: seq<School>, d: Department, w: string)
  {
    var s := SchoolOf(schools, d.schoolId);
    s.Some? ==>
      forall j :: 0 <= j < 3 ==>
        var v := DepartmentSearchValues(d, s.value)[j];
        v.Some? ==> !Contains(v.value, w)
  }

  /** Of three departments, a one-word search that only the first one's name contains finds exactly that one. */
  lemma SearchOneOfThreeDepartments(w: string, schools: seq<School>, d1: Department, d2: Department, d3: Department)
    requires IsWord(w) && !Blank(Some(w)) && NoWildcards(w)
    requires forall i :: 0 <= i < |w| ==> LowerChar(w[i]) == w[i]
    requires SchoolOf(schools, d1.schoolId).Some? && d1.name.Some? && Contains(Downcase(d1.name.value), w)
    requires NoValueContains(schools, d2, w) && NoValueContains(schools, d3, w)
    ensures SearchDepartments(Some(w), [d1, d2, d3], schools) == [d1]
  {
    var cond := Compile(Some(w), DepartmentSearchColumns).value;
    SingleWordMatchesDepartment(w, schools, d1);
    SingleWordMatchesDepartment(w, schools, d2);
    SingleWordMatchesDepartment(w, schools, d3);
    assert DepartmentSearchValues(d1, SchoolOf(schools, d1.schoolId).value)[0] == Folded(d1.name);
    var keep := (d: Department) => DepartmentMatches(cond, schools, d);
    var s := [d1, d2, d3];
    assert SearchDepartments(Some(w), s, schools) == Filter(s, keep);
    assert s[1..] == [d2, d3] && s[1..][1..] == [d3] && s[1..][1..][1..] == [];
    assert Filter([d3], keep) == [];
    assert Filter([d2, d3], keep) == [];
  }

  /** Names without 'u' and short names of at most four characters never contain "unicorns". */
  lemma NotUnicorns(schools: seq<School>, d: Department, name: string)
    requires d.name == Some(name) && 'u' !in name
    requires forall i :: 0 <= i < |name| ==> !('A' <= name[i] <= 'Z')
    requires d.shortName.Some? && |d.shortName.value| <= 4
    requires SchoolOf(schools, d.schoolId).Some? ==>
      var sn := SchoolOf(schools, d.schoolId).value.name;
      sn.Some? ==> !Contains(Downcase(sn.value), "unicorns")
    ensures NoValueContains(schools, d, "unicorns")
  {
    DowncaseNoCapitals(name);
    MissingCharNotContained(name, "unicorns", 'u');
    ShorterNotContained(Downcase(d.shortName.value), "unicorns");
  }

  /** A department named 'unicorns' has a searched value containing the word. */
  lemma UnicornsInName(d: Department)
    requires d.name == Some("unicorns")
    ensures d.name.Some? && Contains(Downcase(d.name.value), "unicorns")
  {
    DowncaseNoCapitals("unicorns");
    ContainsSelf("unicorns");
  }

  /** The names 'oh no' and 'bye' have no capitals and no 'u'. */
  lemma OtherNamesPlain()
    ensures 'u' !in "oh no" && forall i :: 0 <= i < |"oh no"| ==> !('A' <= "oh no"[i] <= 'Z')
    ensures 'u' !in "bye" && forall i :: 0 <= i < |"bye"| ==> !('A' <= "bye"[i] <= 'Z')
  {
  }

  /**
   * Departments named 'unicorns', 'oh no' and 'bye' (short names of at most
   * four letters, school names without "unicorns"): the 'unicorns' search
   * finds only the first.
   */
  lemma UnicornsDepartmentSearch(schools: seq<School>, d1: Department, d2: Department, d3: Department)
    requires d1.name == Some("unicorns") && d2.name == Some("oh no") && d3.name == Some("bye")
    requires d2.shortName.Some? && |d2.shortName.value| <= 4
    requires d3.shortName.Some? && |d3.shortName.value| <= 4
    requires SchoolOf(schools, d1.schoolId).Some?
    requires forall s :: s in schools && s.name.Some? ==> !Contains(Downcase(s.name.value), "unicorns")
    ensures SearchDepartments(Some("unicorns"), [d1, d2, d3], schools) == [d1]
  {
    UnicornsIsAWord();
    UnicornsInName(d1);
    OtherNamesPlain();
    NotUnicorns(schools, d2, "oh no");
    NotUnicorns(schools, d3, "bye");
    SearchOneOfThreeDepartments("unicorns", schools, d1, d2, d3);
  }

  // ---------------------------------------------------------------------------
  // with_school_id: where('school_id in (?)', [*school_ids])

  /** The filter argument: nil, one id, or a list of ids. */
  datatype SchoolIdsArg = NoIds | OneId(id: int) | IdList(ids: seq<int>)

  /** Ruby's [*x]: nil splats to [], a list to itself, anything else to [x]. */
  function Splat(a: SchoolIdsArg): seq<int>
  {
    match a
    case NoIds => []
    case OneId(x) => [x]
    case IdList(xs) => xs
  }

  /** The departments whose school_id is one of ids; a NULL school_id is in no list. */
  function WithSchoolIdIn(depts: seq<Department>, ids: seq<int>): (r: seq<Department>)
    ensures forall d :: d in r <==> d in depts && d.schoolId.Some? && d.schoolId.value in ids
  {
    Filter(depts, (d: Department) => d.schoolId.Some? && d.schoolId.value in ids)
  }

  function WithSchoolId(depts: seq<Department>, a: SchoolIdsArg): (r: seq<Department>)
    ensures forall d :: d in r <==> d in depts && d.schoolId.Some? && d.schoolId.value in Splat(a)
  {
    WithSchoolIdIn(depts, Splat(a))
  }

  /** A single id behaves as a one-element list, and nil selects nothing. */
  lemma WithSchoolIdArguments(depts: seq<Department>, x: int)
    ensures WithSchoolId(depts, OneId(x)) == WithSchoolId(depts, IdList([x]))
    ensures forall d :: d in WithSchoolId(depts, OneId(x)) <==> d in depts && d.schoolId == Some(x)
    ensures WithSchoolId(depts, NoIds) == []
  {
    FilterRejectsAll(depts, (d: Department) => d.schoolId.Some? && d.schoolId.value in []);
  }

  // ---------------------------------------------------------------------------
  // with_averages: one row per department, AVG over the reviews of its courses

  type pos = n: nat | n > 0 witness 1

  /** An SQL AVG: NULL over no rows, otherwise the exact sum and count. */
  datatype Average = NoReviews | Mean(sum: int, count: pos)

  datatype Metric = Rating | Difficulty | WorkRequired | Grade

  function MetricOf(r: Review, m: Metric): Option<int>
  {
    match m
    case Rating => r.rating
    case Difficulty => r.difficulty
    case WorkRequired => r.workRequired
    case Grade => r.grade
  }

  /** The review joins to a course of the department: courses: :reviews under the department. */
  predicate ReviewOfDepartment(r: Review, d: Department, courses: seq<Course>)
  {
    r.courseId.Some? && exists c :: c in courses && c.id == r.courseId.value && c.departmentId == Some(d.id)
  }

  /** The non-NULL values of metric m over the department's reviews, in table order. */
  function MetricValues(reviews: seq<Review>, m: Metric, d: Department, courses: seq<Course>): (vs: seq<int>)
    ensures |vs| <= |reviews|
    ensures forall v :: v in vs <==> exists r :: r in reviews && ReviewOfDepartment(r, d, courses) && MetricOf(r, m) == Some(v)
  {
    if reviews == [] then []
    else
      var r := reviews[0];
      var rest := MetricValues(reviews[1..], m, d, courses);
      assert forall x :: x in reviews <==> x == r || x in reviews[1..];
      if ReviewOfDepartment(r, d, courses) && MetricOf(r, m).Some? then [MetricOf(r, m).value] + rest else rest
  }

  function Sum(xs: seq<int>): int
  {
    if xs == [] then 0 else xs[0] + Sum(xs[1..])
  }

  /** AVG over a column: NULL exactly when no row has a value. */
  function AverageOf(xs: seq<int>): (a: Average)
    ensures a.NoReviews? <==> xs == []
    ensures a.Mean? ==> a.count == |xs| && a.sum == Sum(xs)
  {
    if xs == [] then NoReviews else Mean(Sum(xs), |xs|)
  }

  datatype DepartmentRow = DepartmentRow(
    department: Department,
    avgRating: Average,
    avgDifficulty: Average,
    avgWork: Average,
    avgGrade: Average)

  function AvgOf(row: DepartmentRow, m: Metric): Average
  {
    match m
    case Rating => row.avgRating
    case Difficulty => row.avgDifficulty
    case WorkRequired => row.avgWork
    case Grade => row.avgGrade
  }

  function RowOf(d: Department, courses: seq<Course>, reviews: seq<Review>): DepartmentRow
  {
    DepartmentRow(d,
      AverageOf(MetricValues(reviews, Rating, d, courses)),
      AverageOf(MetricValues(reviews, Difficulty, d, courses)),
      AverageOf(MetricValues(reviews, WorkRequired, d, courses)),
      AverageOf(MetricValues(reviews, Grade, d, courses)))
  }

  /**
   * with_averages: the left joins keep every department, grouped to one row
   * each; an average is NULL when none of its courses has a reviewed value.
   */
  function WithAverages(depts: seq<Department>, courses: seq<Course>, reviews: seq<Review>): (rows: seq<DepartmentRow>)
    ensures |rows| == |depts|
    ensures forall i :: 0 <= i < |depts| ==> rows[i].department == depts[i]
  {
    seq(|depts|, i requires 0 <= i < |depts| => RowOf(depts[i], courses, reviews))
  }

  /** The reviews that count towards metric m of department d: of one of its courses, with a value for m. */
  function Rated(d: Department, courses: seq<Course>, m: Metric): Review -> bool
  {
    (r: Review) => ReviewOfDepartment(r, d, courses) && MetricOf(r, m).Some?
  }

  /** The values of metric m of the given reviews, one per review, in order. */
  function ValuesOf(rs: seq<Review>, m: Metric): seq<int>
  {
    seq(|rs|, k requires 0 <= k < |rs| => if MetricOf(rs[k], m).Some? then MetricOf(rs[k], m).value else 0)
  }

  /**
   * The collected values are those of the rated reviews, one per review and
   * in table order: two reviews with the same value contribute it twice.
   */
  lemma {:induction false} MetricValuesOfRated(reviews: seq<Review>, m: Metric, d: Department, courses: seq<Course>)
    ensures MetricValues(reviews, m, d, courses) == ValuesOf(Filter(reviews, Rated(d, courses, m)), m)
    decreases |reviews|
  {
    if reviews != [] {
      var r := reviews[0];
      var keep := Rated(d, courses, m);
      var rest := Filter(reviews[1..], keep);
      MetricValuesOfRated(reviews[1..], m, d, courses);
      assert Filter(reviews, keep) == (if keep(r) then [r] else []) + rest;
      assert keep(r) == (ReviewOfDepartment(r, d, courses) && MetricOf(r, m).Some?);
      if keep(r) {
        ValuesOfCons(r, rest, m);
      } else {
        assert [] + rest == rest;
      }
    }
  }

  lemma ValuesOfCons(r: Review, rest: seq<Review>, m: Metric)
    requires MetricOf(r, m).Some?
    ensures ValuesOf([r] + rest, m) == [MetricOf(r, m).value] + ValuesOf(rest, m)
  {
    var a := ValuesOf([r] + rest, m);
    var b := [MetricOf(r, m).value] + ValuesOf(rest, m);
    forall k | 0 <= k < |a| ensures a[k] == b[k] {
      if k > 0 {
        assert ([r] + rest)[k] == rest[k - 1];
      }
    }
  }

  /** Collecting over two concatenated review tables concatenates the collected values. */
  lemma {:induction false} MetricValuesAppend(a: seq<Review>, b: seq<Review>, m: Metric, d: Department, courses: seq<Course>)
    ensures MetricValues(a + b, m, d, courses) == MetricValues(a, m, d, courses) + MetricValues(b, m, d, courses)
    decreases |a|
  {
    if a == [] {
      assert a + b == b;
    } else {
      assert (a + b)[1..] == a[1..] + b;
      MetricValuesAppend(a[1..], b, m, d, courses);
    }
  }

  /**
   * Each average of a row is AVG over the department's rated reviews: NULL
   * when there are none, otherwise the sum of their values over their number,
   * every review counted once however many share its value.
   */
  lemma WithAveragesRow(depts: seq<Department>, courses: seq<Course>, reviews: seq<Review>, i: nat, m: Metric)
    requires i < |depts|
    ensures var rated := Filter(reviews, Rated(depts[i], courses, m));
      var a := AvgOf(WithAverages(depts, courses, reviews)[i], m);
      && (a.NoReviews? <==> rated == [])
      && (a.Mean? ==> a.count == |rated| && a.sum == Sum(ValuesOf(rated, m)))
  {
    assert WithAverages(depts, courses, reviews)[i] == RowOf(depts[i], courses, reviews);
    MetricValuesOfRated(reviews, m, depts[i], courses);
  }

  /** An average is NULL exactly when no review of the department's courses has a value for it. */
  lemma WithAveragesNull(depts: seq<Department>, courses: seq<Course>, reviews: seq<Review>, i: nat, m: Metric)
    requires i < |depts|
    ensures AvgOf(WithAverages(depts, courses, reviews)[i], m).NoReviews? <==>
      forall r :: r in reviews && ReviewOfDepartment(r, depts[i], courses) ==> MetricOf(r, m).None?
  {
    assert WithAverages(depts, courses, reviews)[i] == RowOf(depts[i], courses, reviews);
    MetricValuesEmpty(reviews, m, depts[i], courses);
  }

  /** No value is collected exactly when no review of the department has one. */
  lemma MetricValuesEmpty(reviews: seq<Review>, m: Metric, d: Department, courses: seq<Course>)
    ensures MetricValues(reviews, m, d, courses) == [] <==>
      forall r :: r in reviews && ReviewOfDepartment(r, d, courses) ==> MetricOf(r, m).None?
  {
    var vs := MetricValues(reviews, m, d, courses);
    if vs != [] {
      assert vs[0] in vs;
    }
  }

  /** A department without reviews gets NULL averages on every metric. */
  lemma NoReviewsNoAverage(depts: seq<Department>, courses: seq<Course>, reviews: seq<Review>, i: nat, m: Metric)
    requires i < |depts|
    requires forall r :: r in reviews ==> !ReviewOfDepartment(r, depts[i], courses)
    ensures AvgOf(WithAverages(depts, courses, reviews)[i], m) == NoReviews
  {
    WithAveragesNull(depts, courses, reviews, i, m);
  }

  lemma {:induction false} SumBounds(xs: seq<int>, lo: int, hi: int)
    requires forall k :: 0 <= k < |xs| ==> lo <= xs[k] <= hi
    ensures lo * |xs| <= Sum(xs) <= hi * |xs|
  {
    if xs != [] {
      SumBounds(xs[1..], lo, hi);
    }
  }

  /** The average of values in lo..hi lies in lo..hi. */
  lemma AverageBounds(xs: seq<int>, lo: int, hi: int)
    requires forall k :: 0 <= k < |xs| ==> lo <= xs[k] <= hi
    ensures AverageOf(xs).Mean? ==>
      lo * AverageOf(xs).count <= AverageOf(xs).sum <= hi * AverageOf(xs).count
  {
    SumBounds(xs, lo, hi);
  }

  // ---------------------------------------------------------------------------
  // with_avg_*: HAVING avg(...) >= / <= threshold

  /** A threshold num/den, compared exactly. */
  datatype Threshold = Threshold(num: int, den: pos)

  datatype Comparison = AtLeastThreshold | AtMostThreshold

  /** A HAVING test; NULL compared with anything is not true. */
  predicate Compares(a: Average, cmp: Comparison, t: Threshold)
  {
    a.Mean? &&
    match cmp
    case AtLeastThreshold => a.sum * t.den >= t.num * a.count
    case AtMostThreshold => a.sum * t.den <= t.num * a.count
  }

  lemma CrossMultiply(sum: int, count: pos, num: int, den: pos)
    ensures sum * den >= num * count <==> (sum as real) / (count as real) >= (num as real) / (den as real)
    ensures sum * den <= num * count <==> (sum as real) / (count as real) <= (num as real) / (den as real)
  {
    var x := (sum as real) / (count as real);
    var y := (num as real) / (den as real);
    var k := (count * den) as real;
    assert x * (count as real) == sum as real;
    assert y * (den as real) == num as real;
    assert (sum * den) as real == x * k;
    assert (num * count) as real == y * k;
  }

  /** The integer test is the comparison of the exact mean with the threshold. */
  lemma ComparesMeaning(a: Average, cmp: Comparison, t: Threshold)
    ensures Compares(a, cmp, t) <==>
      a.Mean? &&
      match cmp
      case AtLeastThreshold => (a.sum as real) / (a.count as real) >= (t.num as real) / (t.den as real)
      case AtMostThreshold => (a.sum as real) / (a.count as real) <= (t.num as real) / (t.den as real)
  {
    if a.Mean? {
      CrossMultiply(a.sum, a.count, t.num, t.den);
    }
  }

  datatype Having = Having(metric: Metric, cmp: Comparison, threshold: Threshold)

  predicate Passes(row: DepartmentRow, h: Having)
  {
    Compares(AvgOf(row, h.metric), h.cmp, h.threshold)
  }

  /** A HAVING clause keeps the grouped rows that pass, in order. */
  function ApplyHaving(rows: seq<DepartmentRow>, h: Having): (r: seq<DepartmentRow>)
    ensures forall row :: row in r <==> row in rows && Passes(row, h)
    ensures |r| <= |rows|
  {
    if rows == [] then []
    else
      assert forall x :: x in rows <==> x == rows[0] || x in rows[1..];
      (if Passes(rows[0], h) then [rows[0]] else []) + ApplyHaving(rows[1..], h)
  }

  function WithAvgRatingGte(rows: seq<DepartmentRow>, t: Threshold): seq<DepartmentRow>
  {
    ApplyHaving(rows, Having(Rating, AtLeastThreshold, t))
  }

  function WithAvgDifficultyLte(rows: seq<DepartmentRow>, t: Threshold): seq<DepartmentRow>
  {
    ApplyHaving(rows, Having(Difficulty, AtMostThreshold, t))
  }

  function WithAvgWorkLte(rows: seq<DepartmentRow>, t: Threshold): seq<DepartmentRow>
  {
    ApplyHaving(rows, Having(WorkRequired, AtMostThreshold, t))
  }

  function WithAvgGradeGte(rows: seq<DepartmentRow>, t: Threshold): seq<DepartmentRow>
  {
    ApplyHaving(rows, Having(Grade, AtLeastThreshold, t))
  }

  /** A department without reviews passes no with_avg_* filter. */
  lemma NullAverageNeverPasses(rows: seq<DepartmentRow>, h: Having, row: DepartmentRow)
    requires AvgOf(row, h.metric).NoReviews?
    ensures row !in ApplyHaving(rows, h)
  {
  }

  /** The with_avg_* filters keep exactly the rows whose exact mean clears the threshold. */
  lemma AverageFiltersMeaning(rows: seq<DepartmentRow>, t: Threshold, row: DepartmentRow)
    ensures row in WithAvgRatingGte(rows, t) <==> (
      row in rows && row.avgRating.Mean?
      && (row.avgRating.sum as real) / (row.avgRating.count as real) >= (t.num as real) / (t.den as real))
    ensures row in WithAvgGradeGte(rows, t) <==> (
      row in rows && row.avgGrade.Mean?
      && (row.avgGrade.sum as real) / (row.avgGrade.count as real) >= (t.num as real) / (t.den as real))
    ensures row in WithAvgDifficultyLte(rows, t) <==> (
      row in rows && row.avgDifficulty.Mean?
      && (row.avgDifficulty.sum as real) / (row.avgDifficulty.count as real) <= (t.num as real) / (t.den as real))
    ensures row in WithAvgWorkLte(rows, t) <==> (
      row in rows && row.avgWork.Mean?
      && (row.avgWork.sum as real) / (row.avgWork.count as real) <= (t.num as real) / (t.den as real))
  {
    ComparesMeaning(row.avgRating, AtLeastThreshold, t);
    ComparesMeaning(row.avgGrade, AtLeastThreshold, t);
    ComparesMeaning(row.avgDifficulty, AtMostThreshold, t);
    ComparesMeaning(row.avgWork, AtMostThreshold, t);
  }

  /** Chained HAVING filters may be applied in either order. */
  lemma {:induction false} HavingCommute(rows: seq<DepartmentRow>, h1: Having, h2: Having)
    ensures ApplyHaving(ApplyHaving(rows, h1), h2) == ApplyHaving(ApplyHaving(rows, h2), h1)
    decreases |rows|
  {
    if rows != [] {
      HavingCommute(rows[1..], h1, h2);
      var x := rows[0];
      var a1 := if Passes(x, h1) then [x] else [];
      var a2 := if Passes(x, h2) then [x] else [];
      HavingAppend(a1, ApplyHaving(rows[1..], h1), h2);
      HavingAppend(a2, ApplyHaving(rows[1..], h2), h1);
      if Passes(x, h1) {
        assert ApplyHaving([x], h2) == a2 by { assert [x][1..] == []; }
      }
      if Passes(x, h2) {
        assert ApplyHaving([x], h1) == a1 by { assert [x][1..] == []; }
      }
    }
  }

  /** Applying one filter twice is applying it once. */
  lemma {:induction false} HavingIdempotent(rows: seq<DepartmentRow>, h: Having)
    ensures ApplyHaving(ApplyHaving(rows, h), h) == ApplyHaving(rows, h)
    decreases |rows|
  {
    if rows != [] {
      HavingIdempotent(rows[1..], h);
      var x := rows[0];
      var a := if Passes(x, h) then [x] else [];
      HavingAppend(a, ApplyHaving(rows[1..], h), h);
      if Passes(x, h) {
        assert ApplyHaving([x], h) == a by { assert [x][1..] == []; }
      }
    }
  }

  lemma {:induction false} HavingAppend(a: seq<DepartmentRow>, b: seq<DepartmentRow>, h: Having)
    ensures ApplyHaving(a + b, h) == ApplyHaving(a, h) + ApplyHaving(b, h)
    decreases |a|
  {
    if a == [] {
      assert a + b == b;
    } else {
      assert (a + b)[1..] == a[1..] + b;
      HavingAppend(a[1..], b, h);
    }
  }

  /** The ratings 5, 5 and 8 of d1's three reviews are all collected; d2 collects none. */
  lemma ScenarioRatings(d1: Department, d2: Department, c: Course, r1: Review, r2: Review, r3: Review)
    requires d1.id != d2.id && c.departmentId == Some(d1.id)
    requires r1.courseId == Some(c.id) && r2.courseId == Some(c.id) && r3.courseId == Some(c.id)
    requires r1.rating == Some(5) && r2.rating == Some(5) && r3.rating == Some(8)
    ensures MetricValues([r1, r2, r3], Rating, d1, [c]) == [5, 5, 8]
    ensures MetricValues([r1, r2, r3], Rating, d2, [c]) == []
  {
    var rs := [r1, r2, r3];
    assert c in [c];
    assert ReviewOfDepartment(r1, d1, [c]) && ReviewOfDepartment(r2, d1, [c]) && ReviewOfDepartment(r3, d1, [c]);
    assert rs[1..] == [r2, r3] && rs[1..][1..] == [r3] && rs[1..][1..][1..] == [];
    assert MetricValues([r3], Rating, d1, [c]) == [8];
    assert MetricValues([r2, r3], Rating, d1, [c]) == [5, 8];
    assert forall r :: r in rs ==> !ReviewOfDepartment(r, d2, [c]);
    MetricValuesEmpty(rs, Rating, d2, [c]);
  }

  /**
   * Department d1 has one course with three reviews rated 5, 5 and 8, and d2
   * has none. with_averages gives d1 the average 18/3 = 6 (every review
   * counts, not only the distinct ratings, which would average 6.5) and d2
   * NULL. A minimum of 6 keeps d1 alone; a minimum of 6.25 keeps nothing.
   */
  lemma RatingThresholdScenario(d1: Department, d2: Department, c: Course, r1: Review, r2: Review, r3: Review)
    requires d1.id != d2.id && c.departmentId == Some(d1.id)
    requires r1.courseId == Some(c.id) && r2.courseId == Some(c.id) && r3.courseId == Some(c.id)
    requires r1.rating == Some(5) && r2.rating == Some(5) && r3.rating == Some(8)
    ensures var rows := WithAverages([d1, d2], [c], [r1, r2, r3]);
      && rows[0].avgRating == Mean(18, 3) && rows[1].avgRating == NoReviews
      && WithAvgRatingGte(rows, Threshold(6, 1)) == [rows[0]]
      && WithAvgRatingGte(rows, Threshold(25, 4)) == []
  {
    ScenarioAverages(d1, d2, c, r1, r2, r3);
    ScenarioThresholds(WithAverages([d1, d2], [c], [r1, r2, r3]));
  }

  /** Two rows averaging 6 and NULL: a minimum of 6 keeps the first, a minimum of 6.25 neither. */
  lemma ScenarioThresholds(rows: seq<DepartmentRow>)
    requires |rows| == 2 && rows[0].avgRating == Mean(18, 3) && rows[1].avgRating == NoReviews
    ensures WithAvgRatingGte(rows, Threshold(6, 1)) == [rows[0]]
    ensures WithAvgRatingGte(rows, Threshold(25, 4)) == []
  {
    assert rows == [rows[0], rows[1]];
    KeepsFirstOfTwo(rows[0], rows[1], Threshold(6, 1));
    KeepsNoneOfTwo(rows[0], rows[1], Threshold(25, 4));
  }

  lemma ScenarioAverages(d1: Department, d2: Department, c: Course, r1: Review, r2: Review, r3: Review)
    requires d1.id != d2.id && c.departmentId == Some(d1.id)
    requires r1.courseId == Some(c.id) && r2.courseId == Some(c.id) && r3.courseId == Some(c.id)
    requires r1.rating == Some(5) && r2.rating == Some(5) && r3.rating == Some(8)
    ensures var rows := WithAverages([d1, d2], [c], [r1, r2, r3]);
      rows[0].avgRating == Mean(18, 3) && rows[1].avgRating == NoReviews
  {
    var rs := [r1, r2, r3];
    ScenarioRatings(d1, d2, c, r1, r2, r3);
    assert Sum([5, 5, 8]) == 18 by {
      assert [5, 5, 8][1..] == [5, 8] && [5, 8][1..] == [8] && [8][1..] == [];
    }
    var rows := WithAverages([d1, d2], [c], rs);
    assert rows[0] == RowOf(d1, [c], rs) && rows[1] == RowOf(d2, [c], rs);
  }

  lemma KeepsFirstOfTwo(a: DepartmentRow, b: DepartmentRow, t: Threshold)
    requires Passes(a, Having(Rating, AtLeastThreshold, t)) && !Passes(b, Having(Rating, AtLeastThreshold, t))
    ensures WithAvgRatingGte([a, b], t) == [a]
  {
    var h := Having(Rating, AtLeastThreshold, t);
    assert [a, b][1..] == [b] && [b][1..] == [];
    assert ApplyHaving([b], h) == [];
  }

  lemma KeepsNoneOfTwo(a: DepartmentRow, b: DepartmentRow, t: Threshold)
    requires !Passes(a, Having(Rating, AtLeastThreshold, t)) && !Passes(b, Having(Rating, AtLeastThreshold, t))
    ensures WithAvgRatingGte([a, b], t) == []
  {
    var h := Having(Rating, AtLeastThreshold, t);
    assert [a, b][1..] == [b] && [b][1..] == [];
    assert ApplyHaving([b], h) == [];
  }

  // ---------------------------------------------------------------------------
  // has_many :courses, dependent: :destroy

  /**
   * Destroying a department removes it and every course of it. Reviews are
   * untouched: Course declares no dependent association.
   */
  function DestroyDepartment(depts: seq<Department>, courses: seq<Course>, id: nat): (r: (seq<Department>, seq<Course>))
    ensures forall d :: d in r.0 <==> d in depts && d.id != id
    ensures forall c :: c in r.1 <==> c in courses && c.departmentId != Some(id)
  {
    (Filter(depts, (d: Department) => d.id != id), Filter(courses, (c: Course) => c.departmentId != Some(id)))
  }

  /** Destroying a department keeps both tables valid. */
  lemma DestroyKeepsTablesValid(depts: seq<Department>, courses: seq<Course>, id: nat, schoolIds: set<nat>)
    requires ValidDepartments(depts, schoolIds) && ValidCourses(courses, schoolIds)
    ensures ValidDepartments(DestroyDepartment(depts, courses, id).0, schoolIds)
    ensures ValidCourses(DestroyDepartment(depts, courses, id).1, schoolIds)
  {
    var keepD := (d: Department) => d.id != id;
    var keepC := (c: Course) => c.departmentId != Some(id);
    var r := DestroyDepartment(depts, courses, id);
    assert r.0 == Filter(depts, keepD) && r.1 == Filter(courses, keepC);
    UniqueFilter(depts, keepD, DepartmentShortNameKey);
    UniqueFilter(courses, keepC, CourseNameKey);
    UniqueFilter(courses, keepC, CourseNumberKey);
    forall i | 0 <= i < |r.0| ensures DepartmentRowValid(r.0[i], schoolIds) {
      assert r.0[i] in r.0;
      var j :| 0 <= j < |depts| && depts[j] == r.0[i];
    }
    forall i | 0 <= i < |r.1| ensures CourseRowValid(r.1[i], schoolIds) {
      assert r.1[i] in r.1;
      var j :| 0 <= j < |courses| && courses[j] == r.1[i];
    }
  }
}
