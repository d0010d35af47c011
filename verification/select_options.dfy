/**
 * What the index actions hand to the filter form: the select_options hash
 * (filter name to the list of choices offered) and the error of a failed
 * `Model.find`. The choice lists are named by the query that builds them.
 */
module SelectOptions {

  /** The keys of select_options. */
  datatype OptionKey = SortedByKey | WithCourseIdKey | WithDepartmentIdKey | WithSchoolIdKey

  /** The query behind a list of choices. */
  datatype OptionSource =
    | SortChoices(model: string)          // Model.options_for_sorted_by
    | AllCourses                          // Course.options_for_select
    | AllDepartments                      // Department.options_for_select
    | AllSchools                          // School.options_for_select
    | CoursesOfSchool(schoolId: int)      // courses joined to departments of the school
    | DepartmentsOfSchool(schoolId: int)  // Department.where(school_id: ...)
    | CoursesOfDepartment(departmentId: int) // Course.where(department_id: ...)

  /** ActiveRecord::RecordNotFound for the named model. */
  datatype FindError = RecordNotFound(model: string)

  type Options = map<OptionKey, OptionSource>
}
