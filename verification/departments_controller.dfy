/**
 * DepartmentsController: index lists the departments with their averages,
 * narrowed to a school when one is given; show lists a department's courses.
 */
module DepartmentsController {
  import opened Wrappers
  import opened RubyText
  import opened Seqs
  import opened Params
  import opened SelectOptions
  import opened Schools
  import opened Courses
  import opened Reviews
  import opened Departments
  import ReviewsController

  datatype IndexResult = IndexResult(rows: seq<DepartmentRow>, options: Options)

  /** index: Department.with_averages, all of it or where('departments.school_id = ?', school.id). */
  function Index(
    schoolParam: Option<string>,
    departments: seq<Department>, courses: seq<Course>, reviews: seq<Review>, schools: seq<School>): (r: Result<IndexResult, FindError>)
    ensures r.Err? <==> IdExists(schoolParam) && FindById(schools, ReviewsController.SchoolIdOf, schoolParam).None?
    ensures r.Ok? ==> SortedByKey in r.value.options && r.value.options[SortedByKey] == SortChoices("Department")
    ensures r.Ok? ==> (WithSchoolIdKey in r.value.options <==> !IdExists(schoolParam))
    ensures r.Ok? ==> r.value.options.Keys <= {SortedByKey, WithSchoolIdKey}
    ensures r.Ok? && !IdExists(schoolParam) ==> r.value.rows == WithAverages(departments, courses, reviews)
    ensures r.Ok? && IdExists(schoolParam) ==> forall row :: row in r.value.rows <==>
      row in WithAverages(departments, courses, reviews)
      && row.department.schoolId.Some? && row.department.schoolId.value == OptToI(schoolParam)
  {
    var rows := WithAverages(departments, courses, reviews);
    if OptToI(schoolParam) == 0 then
      Ok(IndexResult(rows, map[SortedByKey := SortChoices("Department"), WithSchoolIdKey := AllSchools]))
    else
      match FindById(schools, ReviewsController.SchoolIdOf, schoolParam)
      case None => Err(RecordNotFound("School"))
      case Some(school) =>
        Ok(IndexResult(
          Filter(rows, InSchool(school.id)),
          map[SortedByKey := SortChoices("Department")]))
  }

  /** where('departments.school_id = ?', id) on a with_averages row. */
  function InSchool(id: int): (keep: DepartmentRow -> bool)
    ensures forall row :: keep(row) <==> row.department.schoolId == Some(id)
  {
    (row: DepartmentRow) => row.department.schoolId.Some? && row.department.schoolId.value == id
  }

  /**
   * A school's listing is the unscoped listing narrowed to that school:
   * the same rows in the same order, each department once, and the unscoped
   * listing is what a school of "all" (or "0", or none) gives.
   */
  lemma IndexForSchoolNarrowsAll(
    schoolParam: Option<string>,
    departments: seq<Department>, courses: seq<Course>, reviews: seq<Review>, schools: seq<School>)
    requires IdExists(schoolParam) && Index(schoolParam, departments, courses, reviews, schools).Ok?
    ensures Index(schoolParam, departments, courses, reviews, schools).value.rows ==
      Filter(Index(Some("all"), departments, courses, reviews, schools).value.rows, InSchool(OptToI(schoolParam)))
    ensures Index(Some("all"), departments, courses, reviews, schools) == Index(None, departments, courses, reviews, schools)
  {
    var school := FindById(schools, ReviewsController.SchoolIdOf, schoolParam).value;
    assert ReviewsController.SchoolIdOf(school) == school.id;
    AllIsAbsent();
  }

  datatype ShowResult = ShowResult(courses: seq<Course>, options: Options)

  /**
   * show: set_department (params[:id]) then set_school (params[:school_id])
   * run first; the listing is the courses whose department_id is the department's.
   */
  function Show(
    idParam: Option<string>, schoolParam: Option<string>,
    departments: seq<Department>, courses: seq<Course>, schools: seq<School>): (r: Result<ShowResult, FindError>)
    ensures r.Err? <==>
      FindById(departments, ReviewsController.DepartmentIdOf, idParam).None?
      || FindById(schools, ReviewsController.SchoolIdOf, schoolParam).None?
    ensures FindById(departments, ReviewsController.DepartmentIdOf, idParam).None? ==> r == Err(RecordNotFound("Department"))
    ensures r.Ok? ==> r.value.options == map[SortedByKey := SortChoices("Course")]
    ensures r.Ok? ==> forall c :: c in r.value.courses <==>
      c in courses && c.departmentId.Some? && c.departmentId.value == OptToI(idParam)
  {
    match FindById(departments, ReviewsController.DepartmentIdOf, idParam)
    case None => Err(RecordNotFound("Department"))
    case Some(department) =>
      match FindById(schools, ReviewsController.SchoolIdOf, schoolParam)
      case None => Err(RecordNotFound("School"))
      case Some(_) =>
        Ok(ShowResult(
          Filter(courses, (c: Course) => c.departmentId == Some(department.id)),
          map[SortedByKey := SortChoices("Course")]))
  }
}
