/**
 * CoursesController#index: a department id wins over a school id; each case
 * picks a restriction of the course rows and the filters the form offers.
 */
module CoursesController {
  import opened Wrappers
  import opened RubyText
  import opened Seqs
  import opened Params
  import opened SelectOptions
  import opened Schools
  import opened Courses
  import opened Departments
  import ReviewsController

  /** where('departments.school_id = ?', sid) over the course's department. */
  predicate CourseInSchool(c: Course, departments: seq<Department>, sid: int)
  {
    c.departmentId.Some? &&
    exists d :: d in departments && d.id == c.departmentId.value && d.schoolId.Some? && d.schoolId.value == sid
  }

  /** where(department_id: did). */
  predicate CourseInDepartment(c: Course, did: int)
  {
    c.departmentId.Some? && c.departmentId.value == did
  }

  datatype IndexResult = IndexResult(courses: seq<Course>, options: Options)

  function FindSchool(schools: seq<School>, p: Option<string>): Option<School>
  {
    FindById(schools, ReviewsController.SchoolIdOf, p)
  }

  function FindDepartment(departments: seq<Department>, p: Option<string>): Option<Department>
  {
    FindById(departments, ReviewsController.DepartmentIdOf, p)
  }

  /**
   * index over the course rows. With a department id both set_school and
   * set_department run, so a missing or unknown school id fails there too.
   */
  function Index(
    schoolParam: Option<string>, departmentParam: Option<string>,
    courses: seq<Course>, departments: seq<Department>, schools: seq<School>): (r: Result<IndexResult, FindError>)
    // errors
    ensures IdExists(departmentParam) ==>
      (r.Err? <==> FindSchool(schools, schoolParam).None? || FindDepartment(departments, departmentParam).None?)
    ensures !IdExists(departmentParam) ==>
      (r.Err? <==> IdExists(schoolParam) && FindSchool(schools, schoolParam).None?)
    // sorted_by in every case; with_school_id only when neither id is given; with_department_id unless a department is
    ensures r.Ok? ==> SortedByKey in r.value.options && r.value.options[SortedByKey] == SortChoices("Course")
    ensures r.Ok? ==> (WithSchoolIdKey in r.value.options <==> !IdExists(departmentParam) && !IdExists(schoolParam))
    ensures r.Ok? ==> (WithDepartmentIdKey in r.value.options <==> !IdExists(departmentParam))
    ensures r.Ok? ==> WithCourseIdKey !in r.value.options
    ensures r.Ok? && WithSchoolIdKey in r.value.options ==> r.value.options[WithSchoolIdKey] == AllSchools
    ensures r.Ok? && WithDepartmentIdKey in r.value.options ==>
      r.value.options[WithDepartmentIdKey] ==
        if IdExists(schoolParam) then DepartmentsOfSchool(OptToI(schoolParam)) else AllDepartments
    // the rows: the department's courses, else the school's, else all
    ensures r.Ok? ==> forall c :: c in r.value.courses <==>
      c in courses
      && (IdExists(departmentParam) ==> CourseInDepartment(c, OptToI(departmentParam)))
      && (!IdExists(departmentParam) && IdExists(schoolParam) ==> CourseInSchool(c, departments, OptToI(schoolParam)))
    ensures r.Ok? && !IdExists(departmentParam) && !IdExists(schoolParam) ==> r.value.courses == courses
  {
    if OptToI(departmentParam) == 0 then
      if OptToI(schoolParam) == 0 then
        Ok(IndexResult(courses,
          map[SortedByKey := SortChoices("Course"), WithSchoolIdKey := AllSchools, WithDepartmentIdKey := AllDepartments]))
      else
        match FindSchool(schools, schoolParam)
        case None => Err(RecordNotFound("School"))
        case Some(school) =>
          Ok(IndexResult(Filter(courses, (c: Course) => CourseInSchool(c, departments, school.id)),
            map[SortedByKey := SortChoices("Course"), WithDepartmentIdKey := DepartmentsOfSchool(school.id)]))
    else
      match FindSchool(schools, schoolParam)
      case None => Err(RecordNotFound("School"))
      case Some(_) =>
        match FindDepartment(departments, departmentParam)
        case None => Err(RecordNotFound("Department"))
        case Some(department) =>
          Ok(IndexResult(Filter(courses, (c: Course) => CourseInDepartment(c, department.id)),
            map[SortedByKey := SortChoices("Course")]))
  }

  /** Once a department is given, which school was named changes nothing, as long as it exists. */
  lemma DepartmentTakesPrecedence(
    s1: Option<string>, s2: Option<string>, departmentParam: Option<string>,
    courses: seq<Course>, departments: seq<Department>, schools: seq<School>)
    requires IdExists(departmentParam)
    requires FindSchool(schools, s1).Some? && FindSchool(schools, s2).Some?
    ensures Index(s1, departmentParam, courses, departments, schools) == Index(s2, departmentParam, courses, departments, schools)
  {
  }

  /** Without a department or a school (nil, "all" or "0"), every course is listed and all three filters are offered. */
  lemma UnscopedIndex(courses: seq<Course>, departments: seq<Department>, schools: seq<School>)
    ensures Index(Some("all"), None, courses, departments, schools).Ok?
    ensures Index(Some("all"), None, courses, departments, schools).value.options.Keys ==
      {SortedByKey, WithSchoolIdKey, WithDepartmentIdKey}
  {
    AllIsAbsent();
  }
}
