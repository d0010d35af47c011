/**
 * The sorted_by scopes of Department and User: the direction comes from a
 * trailing "desc", the column from the first prefix in a fixed list that the
 * option starts with, and any other option raises
 * ArgumentError "Invalid sort option: <option.inspect>".
 */
module SortOptions {
  import opened Wrappers
  import opened RubyText

  datatype Direction = Asc | Desc

  datatype SortOrder<C> = SortOrder(column: C, direction: Direction)

  /** /desc$/.match?(sort_option) ? 'desc' : 'asc' */
  function DirectionOf(opt: string): Direction
  {
    if MatchesAtLineEnd(opt, "desc") then Desc else Asc
  }

  /** The message of the ArgumentError raised for an unknown option. */
  function InvalidSortOption(opt: string): string
  {
    "Invalid sort option: " + Inspect(opt)
  }

  /** Index of the first `when /^prefix/` branch, at or after start, that accepts opt. */
  function FirstMatchFrom<C>(table: seq<(string, C)>, opt: string, start: nat): (r: Option<nat>)
    requires start <= |table|
    ensures r.Some? ==> start <= r.value < |table| && MatchesAtLineStart(opt, table[r.value].0)
    ensures r.Some? ==> forall i :: start <= i < r.value ==> !MatchesAtLineStart(opt, table[i].0)
    ensures r.None? ==> forall i :: start <= i < |table| ==> !MatchesAtLineStart(opt, table[i].0)
    decreases |table| - start
  {
    if start == |table| then None
    else if MatchesAtLineStart(opt, table[start].0) then Some(start)
    else FirstMatchFrom(table, opt, start + 1)
  }

  /**
   * The case dispatch of sorted_by over an ordered prefix table: the first
   * prefix that opt starts (a line) with chooses the column; none raises.
   */
  function SortedBy<C>(table: seq<(string, C)>, opt: string): (r: Result<SortOrder<C>, string>)
    ensures r.Err? <==> forall i :: 0 <= i < |table| ==> !MatchesAtLineStart(opt, table[i].0)
    ensures r.Err? ==> r.error == InvalidSortOption(opt)
    ensures r.Ok? ==> (r.value.direction == Desc <==> MatchesAtLineEnd(opt, "desc"))
    ensures r.Ok? ==> exists i :: 0 <= i < |table| && MatchesAtLineStart(opt, table[i].0)
                        && r.value.column == table[i].1
                        && forall h :: 0 <= h < i ==> !MatchesAtLineStart(opt, table[h].0)
  {
    match FirstMatchFrom(table, opt, 0)
    case None => Err(InvalidSortOption(opt))
    case Some(i) => Ok(SortOrder(table[i].1, DirectionOf(opt)))
  }

  /**
   * sorted_by on a parameter that may be nil: `match?(nil)` is false, so the
   * direction is asc; `nil.to_s` is "", which only an empty prefix starts;
   * the message inspects nil as "nil".
   */
  function SortedByParam<C>(table: seq<(string, C)>, opt: Option<string>): (r: Result<SortOrder<C>, string>)
    ensures opt.Some? ==> r == SortedBy(table, opt.value)
    ensures opt.None? ==> (r.Err? <==> forall i :: 0 <= i < |table| ==> table[i].0 != [])
    ensures opt.None? && r.Err? ==> r.error == "Invalid sort option: nil"
    ensures opt.None? && r.Ok? ==> r.value.direction == Asc
  {
    match opt
    case Some(s) => SortedBy(table, s)
    case None =>
      match FirstMatchFrom(table, "", 0)
      case None => Err("Invalid sort option: nil")
      case Some(i) => Ok(SortOrder(table[i].1, Asc))
  }

  /** A nil option raises with both tables: none of their prefixes is empty. */
  lemma NilSortOptionRejected()
    ensures SortedByParam(DepartmentPrefixes, None) == Err("Invalid sort option: nil")
    ensures SortedByParam(UserPrefixes, None) == Err("Invalid sort option: nil")
  {
    assert forall i :: 0 <= i < |DepartmentPrefixes| ==> DepartmentPrefixes[i].0 != [];
    assert forall i :: 0 <= i < |UserPrefixes| ==> UserPrefixes[i].0 != [];
  }

  /** The error message names the rejected option exactly: it can be read back from the message. */
  lemma InvalidSortOptionNamesOption(opt: string)
    ensures |InvalidSortOption(opt)| >= |"Invalid sort option: "| + 2
    ensures Uninspect(InvalidSortOption(opt)[|"Invalid sort option: "|..]) == opt
  {
    var m := InvalidSortOption(opt);
    assert m[|"Invalid sort option: "|..] == Inspect(opt);
    UninspectInspect(opt);
  }

  /** For an option on one line, the direction is desc iff the option ends in "desc". */
  lemma SingleLineDirection(opt: string)
    requires SingleLine(opt)
    ensures DirectionOf(opt) == Desc <==> EndsWith(opt, "desc")
  {
    SingleLineAnchors(opt, "desc");
  }

  /** On one line, the first prefix the option starts with decides the column. */
  lemma SortedByPicks<C>(table: seq<(string, C)>, opt: string, i: nat)
    requires SingleLine(opt)
    requires i < |table| && StartsWith(opt, table[i].0)
    requires forall h :: 0 <= h < i ==> !StartsWith(opt, table[h].0)
    ensures SortedBy(table, opt) == Ok(SortOrder(table[i].1, if EndsWith(opt, "desc") then Desc else Asc))
  {
    forall h | 0 <= h <= i ensures MatchesAtLineStart(opt, table[h].0) == StartsWith(opt, table[h].0) {
      SingleLineAnchors(opt, table[h].0);
    }
    SingleLineDirection(opt);
  }

  /** The suffix a form option carries for each direction. */
  function Suffix(dir: Direction): string
  {
    match dir
    case Asc => "asc"
    case Desc => "desc"
  }

  /**
   * An option built from the i-th prefix and a direction suffix selects the
   * i-th column in that direction, provided no earlier prefix starts it.
   */
  lemma SortedByOption<C>(table: seq<(string, C)>, i: nat, dir: Direction)
    requires i < |table| && SingleLine(table[i].0)
    requires forall h :: 0 <= h < i ==> !StartsWith(table[i].0 + Suffix(dir), table[h].0)
    ensures SortedBy(table, table[i].0 + Suffix(dir)) == Ok(SortOrder(table[i].1, dir))
  {
    var p, s := table[i].0, Suffix(dir);
    var o := p + s;
    forall k | 0 <= k < |o| ensures o[k] != '\n' {
      if k < |p| {
        assert o[k] == p[k];
      } else {
        assert o[k] == s[k - |p|];
      }
    }
    assert o[..|p|] == p;
    if dir == Desc {
      assert o[|o| - 4..] == s;
    } else if |o| >= 4 {
      assert o[|o| - 4..][1] == o[|o| - 3] == 'a';
    }
    SortedByPicks(table, o, i);
  }

  /** On one line, an option that starts with none of the prefixes is rejected. */
  lemma SortedByRejectsLine<C>(table: seq<(string, C)>, opt: string)
    requires SingleLine(opt)
    requires forall h :: 0 <= h < |table| ==> !StartsWith(opt, table[h].0)
    ensures SortedBy(table, opt) == Err(InvalidSortOption(opt))
  {
    forall h | 0 <= h < |table| ensures !MatchesAtLineStart(opt, table[h].0) {
      SingleLineAnchors(opt, table[h].0);
    }
  }

  // ---------------------------------------------------------------------------
  // Department (app/models/department.rb)

  datatype DepartmentColumn =
    | ShortNameColumn | NameColumn | SchoolNameColumn
    | AvgRatingColumn | AvgDifficultyColumn | AvgWorkColumn | AvgGradeColumn

  const DepartmentPrefixes: seq<(string, DepartmentColumn)> := [
    ("short_name_", ShortNameColumn),
    ("name_", NameColumn),
    ("school_", SchoolNameColumn),
    ("avg_rating_", AvgRatingColumn),
    ("avg_difficulty_", AvgDifficultyColumn),
    ("avg_work_", AvgWorkColumn),
    ("avg_grade_", AvgGradeColumn)
  ]

  function DepartmentSortedBy(opt: string): Result<SortOrder<DepartmentColumn>, string>
  {
    SortedBy(DepartmentPrefixes, opt)
  }

  const DepartmentDefaultSort: string := "name_desc"

  /** Department.options_for_sorted_by: (label, option) pairs. */
  const DepartmentSortChoices: seq<(string, string)> := [
    ("Name (a-z)", "name_asc"),
    ("Name (z-a)", "name_desc"),
    ("Short Name (a-z)", "short_name_asc"),
    ("Short Name (z-a)", "short_name_desc"),
    ("School (a-z)", "school_name_asc"),
    ("School (z-a)", "school_name_desc"),
    ("Average Rating (highest first)", "avg_rating_desc"),
    ("Average Work Required (lowest first)", "avg_work_asc"),
    ("Average Difficulty (lowest first)", "avg_difficulty_asc"),
    ("Average Grade (highest first)", "avg_grade_desc")
  ]

  // Each offered option selects the column and direction its label promises.
  lemma DepartmentNameAsc()
    ensures DepartmentSortedBy("name_asc") == Ok(SortOrder(NameColumn, Asc))
  {
    DiffersAt("name_asc", DepartmentPrefixes[0].0, 0);
    assert DepartmentPrefixes[1].0 + Suffix(Asc) == "name_asc";
    SortedByOption(DepartmentPrefixes, 1, Asc);
  }

  lemma DepartmentNameDesc()
    ensures DepartmentSortedBy("name_desc") == Ok(SortOrder(NameColumn, Desc))
  {
    DiffersAt("name_desc", DepartmentPrefixes[0].0, 0);
    assert DepartmentPrefixes[1].0 + Suffix(Desc) == "name_desc";
    SortedByOption(DepartmentPrefixes, 1, Desc);
  }

  lemma DepartmentShortNameAsc()
    ensures DepartmentSortedBy("short_name_asc") == Ok(SortOrder(ShortNameColumn, Asc))
  {
    assert DepartmentPrefixes[0].0 + Suffix(Asc) == "short_name_asc";
    SortedByOption(DepartmentPrefixes, 0, Asc);
  }

  lemma DepartmentShortNameDesc()
    ensures DepartmentSortedBy("short_name_desc") == Ok(SortOrder(ShortNameColumn, Desc))
  {
    assert DepartmentPrefixes[0].0 + Suffix(Desc) == "short_name_desc";
    SortedByOption(DepartmentPrefixes, 0, Desc);
  }

  lemma DepartmentSchoolAsc()
    ensures DepartmentSortedBy("school_name_asc") == Ok(SortOrder(SchoolNameColumn, Asc))
  {
    DiffersAt("school_name_asc", DepartmentPrefixes[0].0, 1);
    DiffersAt("school_name_asc", DepartmentPrefixes[1].0, 0);
    SortedByPicks(DepartmentPrefixes, "school_name_asc", 2);
  }

  lemma DepartmentSchoolDesc()
    ensures DepartmentSortedBy("school_name_desc") == Ok(SortOrder(SchoolNameColumn, Desc))
  {
    DiffersAt("school_name_desc", DepartmentPrefixes[0].0, 1);
    DiffersAt("school_name_desc", DepartmentPrefixes[1].0, 0);
    SortedByPicks(DepartmentPrefixes, "school_name_desc", 2);
  }

  /** An option starting with "avg_" passes over the first three prefixes. */
  lemma MissesNonAverages(o: string)
    requires |o| > 4 && o[..4] == "avg_"
    ensures forall h :: 0 <= h < 3 ==> !StartsWith(o, DepartmentPrefixes[h].0)
  {
    DiffersAt(o, DepartmentPrefixes[0].0, 0);
    DiffersAt(o, DepartmentPrefixes[1].0, 0);
    DiffersAt(o, DepartmentPrefixes[2].0, 0);
  }

  lemma DepartmentAvgRatingDesc()
    ensures DepartmentSortedBy("avg_rating_desc") == Ok(SortOrder(AvgRatingColumn, Desc))
  {
    MissesNonAverages("avg_rating_desc");
    assert DepartmentPrefixes[3].0 + Suffix(Desc) == "avg_rating_desc";
    SortedByOption(DepartmentPrefixes, 3, Desc);
  }

  lemma DepartmentAvgWorkAsc()
    ensures DepartmentSortedBy("avg_work_asc") == Ok(SortOrder(AvgWorkColumn, Asc))
  {
    MissesNonAverages("avg_work_asc");
    DiffersAt("avg_work_asc", DepartmentPrefixes[3].0, 4);
    DiffersAt("avg_work_asc", DepartmentPrefixes[4].0, 4);
    assert DepartmentPrefixes[5].0 + Suffix(Asc) == "avg_work_asc";
    SortedByOption(DepartmentPrefixes, 5, Asc);
  }

  lemma DepartmentAvgDifficultyAsc()
    ensures DepartmentSortedBy("avg_difficulty_asc") == Ok(SortOrder(AvgDifficultyColumn, Asc))
  {
    MissesNonAverages("avg_difficulty_asc");
    DiffersAt("avg_difficulty_asc", DepartmentPrefixes[3].0, 4);
    assert DepartmentPrefixes[4].0 + Suffix(Asc) == "avg_difficulty_asc";
    SortedByOption(DepartmentPrefixes, 4, Asc);
  }

  lemma DepartmentAvgGradeDesc()
    ensures DepartmentSortedBy("avg_grade_desc") == Ok(SortOrder(AvgGradeColumn, Desc))
  {
    MissesNonAverages("avg_grade_desc");
    DiffersAt("avg_grade_desc", DepartmentPrefixes[3].0, 4);
    DiffersAt("avg_grade_desc", DepartmentPrefixes[4].0, 4);
    DiffersAt("avg_grade_desc", DepartmentPrefixes[5].0, 4);
    assert DepartmentPrefixes[6].0 + Suffix(Desc) == "avg_grade_desc";
    SortedByOption(DepartmentPrefixes, 6, Desc);
  }

  /** The column and direction each label of the department form promises, in form order. */
  const DepartmentChoiceOrders: seq<SortOrder<DepartmentColumn>> := [
    SortOrder(NameColumn, Asc), SortOrder(NameColumn, Desc),
    SortOrder(ShortNameColumn, Asc), SortOrder(ShortNameColumn, Desc),
    SortOrder(SchoolNameColumn, Asc), SortOrder(SchoolNameColumn, Desc),
    SortOrder(AvgRatingColumn, Desc), SortOrder(AvgWorkColumn, Asc),
    SortOrder(AvgDifficultyColumn, Asc), SortOrder(AvgGradeColumn, Desc)
  ]

  /** Every option the form offers sorts as its label says, and the default name_desc sorts by name descending. */
  lemma DepartmentChoicesAccepted()
    ensures |DepartmentChoiceOrders| == |DepartmentSortChoices|
    ensures forall i :: 0 <= i < |DepartmentSortChoices| ==>
      DepartmentSortedBy(DepartmentSortChoices[i].1) == Ok(DepartmentChoiceOrders[i])
    ensures DepartmentSortedBy(DepartmentDefaultSort) == Ok(SortOrder(NameColumn, Desc))
  {
    forall i | 0 <= i < |DepartmentSortChoices|
      ensures DepartmentSortedBy(DepartmentSortChoices[i].1) == Ok(DepartmentChoiceOrders[i])
    {
      var o := DepartmentSortChoices[i].1;
      if i == 0 { assert o == "name_asc"; DepartmentNameAsc(); }
      else if i == 1 { assert o == "name_desc"; DepartmentNameDesc(); }
      else if i == 2 { assert o == "short_name_asc"; DepartmentShortNameAsc(); }
      else if i == 3 { assert o == "short_name_desc"; DepartmentShortNameDesc(); }
      else if i == 4 { assert o == "school_name_asc"; DepartmentSchoolAsc(); }
      else if i == 5 { assert o == "school_name_desc"; DepartmentSchoolDesc(); }
      else if i == 6 { assert o == "avg_rating_desc"; DepartmentAvgRatingDesc(); }
      else if i == 7 { assert o == "avg_work_asc"; DepartmentAvgWorkAsc(); }
      else if i == 8 { assert o == "avg_difficulty_asc"; DepartmentAvgDifficultyAsc(); }
      else { assert o == "avg_grade_desc"; DepartmentAvgGradeDesc(); }
    }
    DepartmentNameDesc();
  }

  // Options outside the table raise, naming the option.
  lemma DepartmentRejectsUnknown()
    ensures DepartmentSortedBy("oh_no") == Err("Invalid sort option: \"oh_no\"")
  {
    forall h | 0 <= h < 7 ensures !StartsWith("oh_no", DepartmentPrefixes[h].0) {
      DiffersAt("oh_no", DepartmentPrefixes[h].0, 0);
    }
    assert SingleLine("oh_no");
    InspectPlain("oh_no");
    assert Inspect("oh_no") == "\"oh_no\"";
    SortedByRejectsLine(DepartmentPrefixes, "oh_no");
    assert InvalidSortOption("oh_no") == "Invalid sort option: \"oh_no\"";
  }

  lemma DepartmentRejectsDepartment()
    ensures DepartmentSortedBy("department_asc") == Err(InvalidSortOption("department_asc"))
  {
    forall h | 0 <= h < 7 ensures !StartsWith("department_asc", DepartmentPrefixes[h].0) {
      DiffersAt("department_asc", DepartmentPrefixes[h].0, 0);
    }
    assert SingleLine("department_asc");
    SortedByRejectsLine(DepartmentPrefixes, "department_asc");
  }

  // ---------------------------------------------------------------------------
  // User (app/models/user.rb)

  datatype UserColumn = EmailColumn | YearsExperienceColumn | AdminColumn

  const UserPrefixes: seq<(string, UserColumn)> := [
    ("email_", EmailColumn),
    ("years_experience_", YearsExperienceColumn),
    ("admin_", AdminColumn)
  ]

  function UserSortedBy(opt: string): Result<SortOrder<UserColumn>, string>
  {
    SortedBy(UserPrefixes, opt)
  }

  const UserDefaultSort: string := "email_desc"

  /** User.options_for_sorted_by: (label, option) pairs. */
  const UserSortChoices: seq<(string, string)> := [
    ("Email (a-z)", "email_asc"),
    ("Email (z-a)", "email_desc"),
    ("Years Experience (lowest first)", "years_experience_asc"),
    ("Years Experience (highest first)", "years_experience_desc"),
    ("Admin? (false first)", "admin_asc"),
    ("Admin? (true first)", "admin_desc")
  ]

  // Each offered option selects the column and direction its label promises.
  lemma UserEmailAsc()
    ensures UserSortedBy("email_asc") == Ok(SortOrder(EmailColumn, Asc))
  {
    assert UserPrefixes[0].0 + Suffix(Asc) == "email_asc";
    SortedByOption(UserPrefixes, 0, Asc);
  }

  lemma UserEmailDesc()
    ensures UserSortedBy("email_desc") == Ok(SortOrder(EmailColumn, Desc))
  {
    assert UserPrefixes[0].0 + Suffix(Desc) == "email_desc";
    SortedByOption(UserPrefixes, 0, Desc);
  }

  lemma UserYearsAsc()
    ensures UserSortedBy("years_experience_asc") == Ok(SortOrder(YearsExperienceColumn, Asc))
  {
    DiffersAt("years_experience_asc", UserPrefixes[0].0, 0);
    assert UserPrefixes[1].0 + Suffix(Asc) == "years_experience_asc";
    SortedByOption(UserPrefixes, 1, Asc);
  }

  lemma UserYearsDesc()
    ensures UserSortedBy("years_experience_desc") == Ok(SortOrder(YearsExperienceColumn, Desc))
  {
    DiffersAt("years_experience_desc", UserPrefixes[0].0, 0);
    assert UserPrefixes[1].0 + Suffix(Desc) == "years_experience_desc";
    SortedByOption(UserPrefixes, 1, Desc);
  }

  lemma UserAdminAsc()
    ensures UserSortedBy("admin_asc") == Ok(SortOrder(AdminColumn, Asc))
  {
    DiffersAt("admin_asc", UserPrefixes[0].0, 0);
    DiffersAt("admin_asc", UserPrefixes[1].0, 0);
    assert UserPrefixes[2].0 + Suffix(Asc) == "admin_asc";
    SortedByOption(UserPrefixes, 2, Asc);
  }

  lemma UserAdminDesc()
    ensures UserSortedBy("admin_desc") == Ok(SortOrder(AdminColumn, Desc))
  {
    DiffersAt("admin_desc", UserPrefixes[0].0, 0);
    DiffersAt("admin_desc", UserPrefixes[1].0, 0);
    assert UserPrefixes[2].0 + Suffix(Desc) == "admin_desc";
    SortedByOption(UserPrefixes, 2, Desc);
  }

  /** "deactivated_" is not among the prefixes: sorting by it raises. */
  lemma UserRejectsDeactivated()
    ensures UserSortedBy("deactivated_desc") == Err(InvalidSortOption("deactivated_desc"))
  {
    forall h | 0 <= h < 3 ensures !StartsWith("deactivated_desc", UserPrefixes[h].0) {
      DiffersAt("deactivated_desc", UserPrefixes[h].0, 0);
    }
    assert SingleLine("deactivated_desc");
    SortedByRejectsLine(UserPrefixes, "deactivated_desc");
  }

  lemma UserRejectsUnknown()
    ensures UserSortedBy("oh_no") == Err("Invalid sort option: \"oh_no\"")
  {
    forall h | 0 <= h < 3 ensures !StartsWith("oh_no", UserPrefixes[h].0) {
      DiffersAt("oh_no", UserPrefixes[h].0, 0);
    }
    assert SingleLine("oh_no");
    InspectPlain("oh_no");
    assert Inspect("oh_no") == "\"oh_no\"";
    SortedByRejectsLine(UserPrefixes, "oh_no");
    assert InvalidSortOption("oh_no") == "Invalid sort option: \"oh_no\"";
  }

  /** The column and direction each label of the user form promises, in form order. */
  const UserChoiceOrders: seq<SortOrder<UserColumn>> := [
    SortOrder(EmailColumn, Asc), SortOrder(EmailColumn, Desc),
    SortOrder(YearsExperienceColumn, Asc), SortOrder(YearsExperienceColumn, Desc),
    SortOrder(AdminColumn, Asc), SortOrder(AdminColumn, Desc)
  ]

  /** Every option the form offers sorts as its label says, and the default email_desc sorts by email descending. */
  lemma UserChoicesAccepted()
    ensures |UserChoiceOrders| == |UserSortChoices|
    ensures forall i :: 0 <= i < |UserSortChoices| ==> UserSortedBy(UserSortChoices[i].1) == Ok(UserChoiceOrders[i])
    ensures UserSortedBy(UserDefaultSort) == Ok(SortOrder(EmailColumn, Desc))
  {
    forall i | 0 <= i < |UserSortChoices| ensures UserSortedBy(UserSortChoices[i].1) == Ok(UserChoiceOrders[i]) {
      var o := UserSortChoices[i].1;
      if i == 0 { assert o == "email_asc"; UserEmailAsc(); }
      else if i == 1 { assert o == "email_desc"; UserEmailDesc(); }
      else if i == 2 { assert o == "years_experience_asc"; UserYearsAsc(); }
      else if i == 3 { assert o == "years_experience_desc"; UserYearsDesc(); }
      else if i == 4 { assert o == "admin_asc"; UserAdminAsc(); }
      else { assert o == "admin_desc"; UserAdminDesc(); }
    }
    UserEmailDesc();
  }
}
