/**
 * The Review model: its validations, the one-review-per-user-and-course rule,
 * letter_grade and display_grade.
 */
module Reviews {
  import opened Wrappers
  import opened RubyText
  import opened Validations

  /** A review row; the free-text and boolean columns no rule reads are left out. */
  datatype Review = Review(
    id: nat,
    userId: Option<nat>,
    courseId: Option<nat>,
    rating: Option<int>,
    difficulty: Option<int>,
    grade: Option<int>,
    workRequired: Option<int>,
    year: Option<int>,
    term: Option<int>)

  function ReviewKey(r: Review): (Option<nat>, Option<nat>) { (r.userId, r.courseId) }

  /** The numeric ranges the validations demand; bootYear is the year when the class was loaded. */
  predicate InRanges(r: Review, bootYear: int)
  {
    r.grade.Some? && 0 <= r.grade.value <= 100
    && r.rating.Some? && 0 <= r.rating.value <= 10
    && r.difficulty.Some? && 0 <= r.difficulty.value <= 10
    && r.year.Some? && 1990 <= r.year.value <= bootYear
    && r.term.Some? && 1 <= r.term.value <= 10
    && r.workRequired.Some? && 0 <= r.workRequired.value <= 100
  }

  /** The errors of saving r next to the stored reviews, in the order the validations run. */
  function ReviewErrors(stored: seq<Review>, r: Review, bootYear: int, userIds: set<nat>, courseIds: set<nat>)
    : (errs: seq<FieldError>)
    ensures errs == [] <==>
      r.userId.Some? && !Taken(stored, ReviewKey, ReviewKey(r)) && InRanges(r, bootYear)
      && r.courseId.Some? && r.courseId.value in courseIds && r.userId.value in userIds
    ensures r.rating.None? ==> errs[0] == FieldError("rating", CantBeBlank)
  {
    PresenceOfValue("rating", r.rating)
    + PresenceOfValue("user_id", r.userId)
    + UniquenessOf("user_id", stored, ReviewKey, r)
    + NumericalityIn("grade", r.grade, 0, 100)
    + NumericalityIn("rating", r.rating, 0, 10)
    + NumericalityIn("difficulty", r.difficulty, 0, 10)
    + NumericalityIn("year", r.year, 1990, bootYear)
    + NumericalityIn("term", r.term, 1, 10)
    + NumericalityIn("work_required", r.workRequired, 0, 100)
    + ParentExists("course", r.courseId, courseIds)
    + ParentExists("user", r.userId, userIds)
  }

  /** The table invariant the validations keep. */
  predicate ValidReviews(t: seq<Review>, bootYear: int, userIds: set<nat>, courseIds: set<nat>)
  {
    (forall i :: 0 <= i < |t| ==>
       t[i].userId.Some? && InRanges(t[i], bootYear)
       && t[i].courseId.Some? && t[i].courseId.value in courseIds && t[i].userId.value in userIds)
    && UniqueBy(t, ReviewKey)
  }

  /** Creating a review keeps the table valid exactly when it has no validation errors. */
  lemma CreateReview(t: seq<Review>, r: Review, bootYear: int, userIds: set<nat>, courseIds: set<nat>)
    requires ValidReviews(t, bootYear, userIds, courseIds)
    ensures ValidReviews(t + [r], bootYear, userIds, courseIds) <==> ReviewErrors(t, r, bootYear, userIds, courseIds) == []
  {
    UniqueAppend(t, ReviewKey, r);
    assert (t + [r])[|t|] == r;
    assert forall i :: 0 <= i < |t| ==> (t + [r])[i] == t[i];
  }

  /** A user reviews a course at most once: in a valid table no two reviews share (user, course). */
  lemma OneReviewPerUserAndCourse(t: seq<Review>, bootYear: int, userIds: set<nat>, courseIds: set<nat>, i: nat, j: nat)
    requires ValidReviews(t, bootYear, userIds, courseIds)
    requires i < j < |t|
    ensures t[i].userId != t[j].userId || t[i].courseId != t[j].courseId
  {
    assert ReviewKey(t[i]) != ReviewKey(t[j]);
  }

  // ---------------------------------------------------------------------------
  // letter_grade and display_grade

  /** case grade when 90..100 ... else 'Error': ranges are inclusive and the first that covers wins. */
  function LetterGrade(grade: Option<int>): (l: string)
    ensures l == "A" || l == "B" || l == "C" || l == "D" || l == "F" || l == "Error"
  {
    match grade
    case None => "Error"
    case Some(g) =>
      if 90 <= g <= 100 then "A"
      else if 80 <= g <= 90 then "B"
      else if 70 <= g <= 80 then "C"
      else if 60 <= g <= 70 then "D"
      else if 0 <= g <= 60 then "F"
      else "Error"
  }

  /** Order of the letters, F lowest; "Error" ranks below every letter. */
  function LetterRank(l: string): int
  {
    if l == "A" then 4 else if l == "B" then 3 else if l == "C" then 2
    else if l == "D" then 1 else if l == "F" then 0 else -1
  }

  /** The bands, with each boundary going to the higher letter. */
  lemma LetterGradeBands(g: int)
    ensures LetterGrade(Some(g)) == "A" <==> 90 <= g <= 100
    ensures LetterGrade(Some(g)) == "B" <==> 80 <= g < 90
    ensures LetterGrade(Some(g)) == "C" <==> 70 <= g < 80
    ensures LetterGrade(Some(g)) == "D" <==> 60 <= g < 70
    ensures LetterGrade(Some(g)) == "F" <==> 0 <= g < 60
    ensures LetterGrade(Some(g)) == "Error" <==> g < 0 || g > 100
  {
  }

  /** A grade that passes validation always has a letter; nil and out-of-range grades give "Error". */
  lemma LetterGradeError(grade: Option<int>)
    ensures LetterGrade(grade) == "Error" <==> grade.None? || grade.value < 0 || grade.value > 100
    ensures LetterRank(LetterGrade(grade)) == -1 <==> LetterGrade(grade) == "Error"
  {
  }

  /** A better grade never earns a worse letter. */
  lemma LetterGradeMonotone(g1: int, g2: int)
    requires 0 <= g1 <= g2 <= 100
    ensures LetterRank(LetterGrade(Some(g1))) <= LetterRank(LetterGrade(Some(g2)))
  {
  }

  /** Every review of a valid table has a letter grade. */
  lemma StoredReviewsHaveLetters(t: seq<Review>, bootYear: int, userIds: set<nat>, courseIds: set<nat>, i: nat)
    requires ValidReviews(t, bootYear, userIds, courseIds) && i < |t|
    ensures LetterGrade(t[i].grade) != "Error"
  {
    LetterGradeError(t[i].grade);
  }

  /** "#{grade}% (#{letter_grade})": nil interpolates as "". */
  function DisplayGrade(grade: Option<int>): (s: string)
    ensures grade.None? ==> s == "% (Error)"
  {
    (if grade.Some? then IntToString(grade.value) else "") + "% (" + LetterGrade(grade) + ")"
  }

  /** The grade can be read back from the displayed string with String#to_i. */
  lemma DisplayGradeReadsBack(g: int)
    ensures ToI(DisplayGrade(Some(g))) == g
  {
    var rest := "% (" + LetterGrade(Some(g)) + ")";
    assert DisplayGrade(Some(g)) == IntToString(g) + rest;
    ToIOfIntToString(g, rest);
  }

  /** The displayed string ends with a percent sign and the letter in parentheses. */
  lemma DisplayGradeShowsLetter(grade: Option<int>)
    ensures EndsWith(DisplayGrade(grade), "% (" + LetterGrade(grade) + ")")
    ensures grade.Some? ==> DisplayGrade(grade)[..|DisplayGrade(grade)| - |"% (" + LetterGrade(grade) + ")"|] == IntToString(grade.value)
  {
    var l := "% (" + LetterGrade(grade) + ")";
    var pre := if grade.Some? then IntToString(grade.value) else "";
    assert DisplayGrade(grade) == pre + l;
  }

  lemma DisplayNinety()
    ensures DisplayGrade(Some(90)) == "90% (A)"
  {
    assert NatToString(90) == "90";
  }
}
