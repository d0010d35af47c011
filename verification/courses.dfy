/**
 * The Course model: presence of name, department and number; name unique
 * ignoring case among the courses of one school, number unique ignoring case
 * among the courses of one department; and full_number.
 */
module Courses {
  import opened Wrappers
  import opened RubyText
  import opened Validations

  /**
   * A course row. `department` is the string column course.rb validates and
   * interpolates; `departmentId` is the foreign key the controllers filter on.
   */
  datatype Course = Course(
    id: nat,
    name: Option<string>,
    number: Option<string>,
    department: Option<string>,
    schoolId: Option<nat>,
    departmentId: Option<nat>)

  function CourseNameKey(c: Course): (Option<nat>, Option<string>) { (c.schoolId, Folded(c.name)) }

  function CourseNumberKey(c: Course): (Option<string>, Option<string>) { (c.department, Folded(c.number)) }

  /** The errors of saving c next to the stored courses, in the order the validations run. */
  function CourseErrors(stored: seq<Course>, c: Course, schoolIds: set<nat>): (errs: seq<FieldError>)
    ensures errs == [] <==>
      !Blank(c.name) && !Taken(stored, CourseNameKey, CourseNameKey(c))
      && !Blank(c.department)
      && !Blank(c.number) && !Taken(stored, CourseNumberKey, CourseNumberKey(c))
      && c.schoolId.Some? && c.schoolId.value in schoolIds
  {
    PresenceOf("name", c.name)
    + UniquenessOf("name", stored, CourseNameKey, c)
    + PresenceOf("department", c.department)
    + PresenceOf("number", c.number)
    + UniquenessOf("number", stored, CourseNumberKey, c)
    + ParentExists("school", c.schoolId, schoolIds)
  }

  predicate CourseRowValid(c: Course, schoolIds: set<nat>)
  {
    !Blank(c.name) && !Blank(c.department) && !Blank(c.number)
    && c.schoolId.Some? && c.schoolId.value in schoolIds
  }

  /** The table invariant the validations keep. */
  predicate ValidCourses(t: seq<Course>, schoolIds: set<nat>)
  {
    (forall i :: 0 <= i < |t| ==> CourseRowValid(t[i], schoolIds))
    && UniqueBy(t, CourseNameKey)
    && UniqueBy(t, CourseNumberKey)
  }

  /** Creating a course keeps the table valid exactly when the course has no validation errors. */
  lemma CreateCourse(t: seq<Course>, c: Course, schoolIds: set<nat>)
    requires ValidCourses(t, schoolIds)
    ensures ValidCourses(t + [c], schoolIds) <==> CourseErrors(t, c, schoolIds) == []
  {
    UniqueAppend(t, CourseNameKey, c);
    UniqueAppend(t, CourseNumberKey, c);
    assert (t + [c])[|t|] == c;
    assert forall i :: 0 <= i < |t| ==> (t + [c])[i] == t[i];
  }

  // ---------------------------------------------------------------------------
  // full_number

  /** String interpolation of a possibly nil attribute: nil.to_s is "". */
  function Interpolated(v: Option<string>): string
  {
    if v.Some? then v.value else ""
  }

  /** "#{department} #{number}" */
  function FullNumber(c: Course): string
  {
    Interpolated(c.department) + " " + Interpolated(c.number)
  }

  /** Department and number can be read back from the full number when the department holds no space. */
  lemma FullNumberInjective(d1: string, n1: string, d2: string, n2: string)
    requires ' ' !in d1 && ' ' !in d2
    requires d1 + " " + n1 == d2 + " " + n2
    ensures d1 == d2 && n1 == n2
  {
    var s := d1 + " " + n1;
    assert forall k :: 0 <= k < |d1| ==> s[k] == d1[k] != ' ';
    assert s[|d1|] == ' ';
    assert forall k :: 0 <= k < |d2| ==> s[k] == d2[k] != ' ';
    assert s[|d2|] == ' ';
    assert |d1| == |d2|;
    assert d1 == s[..|d1|] == d2;
    assert n1 == s[|d1| + 1..] == n2;
  }

  /** In a valid table whose departments hold no space, no two courses share a full number. */
  lemma FullNumbersDistinct(t: seq<Course>, schoolIds: set<nat>)
    requires ValidCourses(t, schoolIds)
    requires forall i :: 0 <= i < |t| ==> ' ' !in Interpolated(t[i].department)
    ensures forall i, j :: 0 <= i < j < |t| ==> FullNumber(t[i]) != FullNumber(t[j])
  {
    forall i, j | 0 <= i < j < |t| ensures FullNumber(t[i]) != FullNumber(t[j]) {
      if FullNumber(t[i]) == FullNumber(t[j]) {
        var a, b := t[i], t[j];
        FullNumberInjective(Interpolated(a.department), Interpolated(a.number),
                            Interpolated(b.department), Interpolated(b.number));
      }
    }
  }

  /** Two courses of different departments may carry the same number. */
  lemma SharedNumberAcrossDepartments()
    ensures ValidCourses([Course(1, Some("Algebra"), Some("101"), Some("MATH"), Some(1), Some(1)),
                          Course(2, Some("Programming"), Some("101"), Some("CS"), Some(1), Some(2))], {1})
  {
    var a := Course(1, Some("Algebra"), Some("101"), Some("MATH"), Some(1), Some(1));
    var b := Course(2, Some("Programming"), Some("101"), Some("CS"), Some(1), Some(2));
    assert !IsUnicodeSpace('A') && !IsUnicodeSpace('1') && !IsUnicodeSpace('M');
    assert !IsUnicodeSpace('P') && !IsUnicodeSpace('C');
    assert a.name.value[0] == 'A' && a.number.value[0] == '1' && a.department.value[0] == 'M';
    assert b.name.value[0] == 'P' && b.department.value[0] == 'C';
    assert Downcase("Algebra")[0] == 'a' && Downcase("Programming")[0] == 'p';
  }
}
