/**
 * ReviewsController#index: narrowing the reviews by school, department and
 * course, and building the select_options hash in place as it goes.
 */
module ReviewsController {
  import opened Wrappers
  import opened RubyText
  import opened Seqs
  import opened Params
  import opened SelectOptions
  import opened Schools
  import opened Courses
  import opened Reviews
  import opened Departments

  function SchoolIdOf(s: School): nat { s.id }
  function DepartmentIdOf(d: Department): nat { d.id }
  function CourseIdOf(c: Course): nat { c.id }

  /** joins(course: :department).where('departments.school_id = ?', sid): the review's course is in a department of the school. */
  predicate ReviewInSchool(r: Review, courses: seq<Course>, departments: seq<Department>, sid: int)
  {
    r.courseId.Some? &&
    exists c, d :: c in courses && d in departments && c.id == r.courseId.value
      && c.departmentId == Some(d.id) && d.schoolId.Some? && d.schoolId.value == sid
  }

  /** where('courses.department_id = ?', did) over the joined course. */
  predicate ReviewInDepartment(r: Review, courses: seq<Course>, did: int)
  {
    r.courseId.Some? &&
    exists c :: c in courses && c.id == r.courseId.value && c.departmentId.Some? && c.departmentId.value == did
  }

  /** where(course_id: cid). */
  predicate ReviewOfCourse(r: Review, cid: int)
  {
    r.courseId.Some? && r.courseId.value == cid
  }

  /** A given id whose row is missing: the find raises RecordNotFound. */
  predicate Missing<T>(rows: seq<T>, id: T -> nat, p: Option<string>)
  {
    IdExists(p) && FindById(rows, id, p).None?
  }

  datatype IndexResult = IndexResult(reviews: seq<Review>, options: Options)

  /**
   * index. The department restriction filters on the course joined in by the
   * school restriction, so a department id without a school id would be an
   * SQL error; callers give a school whenever they give a department.
   */
  method Index(
    schoolParam: Option<string>, departmentParam: Option<string>, courseParam: Option<string>,
    reviews: seq<Review>, courses: seq<Course>, departments: seq<Department>, schools: seq<School>)
    returns (r: Result<IndexResult, FindError>)
    requires IdExists(departmentParam) ==> IdExists(schoolParam)
    // errors: the first failing find, in the order school, department, course
    ensures r.Err? <==>
      Missing(schools, SchoolIdOf, schoolParam) || Missing(departments, DepartmentIdOf, departmentParam)
      || Missing(courses, CourseIdOf, courseParam)
    ensures Missing(schools, SchoolIdOf, schoolParam) ==> r == Err(RecordNotFound("School"))
    ensures !Missing(schools, SchoolIdOf, schoolParam) && Missing(departments, DepartmentIdOf, departmentParam) ==>
      r == Err(RecordNotFound("Department"))
    // sorted_by is always offered
    ensures r.Ok? ==> SortedByKey in r.value.options && r.value.options[SortedByKey] == SortChoices("Review")
    // with_school_id is offered exactly when no school is given
    ensures r.Ok? ==> (WithSchoolIdKey in r.value.options <==> !IdExists(schoolParam))
    ensures r.Ok? && WithSchoolIdKey in r.value.options ==> r.value.options[WithSchoolIdKey] == AllSchools
    // with_department_id: gone once a department is given, else the school's departments or all
    ensures r.Ok? ==> (WithDepartmentIdKey in r.value.options <==> !IdExists(departmentParam))
    ensures r.Ok? && WithDepartmentIdKey in r.value.options ==>
      r.value.options[WithDepartmentIdKey] ==
        if IdExists(schoolParam) then DepartmentsOfSchool(OptToI(schoolParam)) else AllDepartments
    // with_course_id: gone once a course is given, else the narrowest enclosing scope's courses
    ensures r.Ok? ==> (WithCourseIdKey in r.value.options <==> !IdExists(courseParam))
    ensures r.Ok? && WithCourseIdKey in r.value.options ==>
      r.value.options[WithCourseIdKey] ==
        if IdExists(departmentParam) then CoursesOfDepartment(OptToI(departmentParam))
        else if IdExists(schoolParam) then CoursesOfSchool(OptToI(schoolParam))
        else AllCourses
    // the reviews: exactly those passing every restriction whose id is given
    ensures r.Ok? ==> |r.value.reviews| <= |reviews|
    ensures r.Ok? ==> forall x :: x in r.value.reviews <==>
      x in reviews
      && (IdExists(schoolParam) ==> ReviewInSchool(x, courses, departments, OptToI(schoolParam)))
      && (IdExists(departmentParam) ==> ReviewInDepartment(x, courses, OptToI(departmentParam)))
      && (IdExists(courseParam) ==> ReviewOfCourse(x, OptToI(courseParam)))
  {
    var kept := reviews;
    var options: Options := map[SortedByKey := SortChoices("Review")];
    if OptToI(schoolParam) == 0 {
      options := options[WithCourseIdKey := AllCourses][WithDepartmentIdKey := AllDepartments][WithSchoolIdKey := AllSchools];
    }

    if IdExists(schoolParam) {
      var school := FindById(schools, SchoolIdOf, schoolParam);
      if school.None? {
        return Err(RecordNotFound("School"));
      }
      var sid := school.value.id;
      kept := Filter(kept, (x: Review) => ReviewInSchool(x, courses, departments, sid));
      options := options[WithCourseIdKey := CoursesOfSchool(sid)];
      options := options[WithDepartmentIdKey := DepartmentsOfSchool(sid)];
    }

    if IdExists(departmentParam) {
      var department := FindById(departments, DepartmentIdOf, departmentParam);
      if department.None? {
        return Err(RecordNotFound("Department"));
      }
      var did := department.value.id;
      kept := Filter(kept, (x: Review) => ReviewInDepartment(x, courses, did));
      options := options - {WithDepartmentIdKey};
      options := options[WithCourseIdKey := CoursesOfDepartment(did)];
    }

    if IdExists(courseParam) {
      var course := FindById(courses, CourseIdOf, courseParam);
      if course.None? {
        return Err(RecordNotFound("Course"));
      }
      var cid := course.value.id;
      options := options - {WithCourseIdKey};
      kept := Filter(kept, (x: Review) => ReviewOfCourse(x, cid));
    }

    return Ok(IndexResult(kept, options));
  }
}
