# course_review in Dafny

course_review is a Rails application in which students review university
courses. Schools have departments, departments have courses, and users write
one review per course. The review records a rating, a difficulty, a grade, the
work required, a year and a term. This project models the rules the
application states on top of its database:

- the record validations, including the case-insensitive, scoped uniqueness
  rules, each stated as an invariant of a table of rows;
- the `search_query` scopes of Department and User: the query is split into
  terms, the terms become LIKE patterns, and a row matches when every term
  LIKE-matches one of the searched columns;
- the `sorted_by` dispatch and the options the filter forms offer;
- `with_school_id`, `with_averages` and the four `with_avg_*` HAVING filters;
- Review's `letter_grade` and `display_grade`;
- the ReviewPolicy and UserPolicy authorization predicates;
- the index actions of the reviews, courses and departments controllers,
  which choose the rows shown and the filters offered from the ids in the
  query string;
- the strong-parameter whitelists, and the `promote`, `demote` and
  `set_user` actions of the users controller.

Rows are datatypes. Tables are sequences of rows. Database NULL is `None`.
An exception the code would raise is an `Err` value. SQL `LIKE` follows
subclause 8.5 of ISO/IEC 9075-2, without an ESCAPE clause. An `AVG` is
kept as an exact sum and count. A HAVING threshold is compared by
cross-multiplication, and a lemma shows this equals comparing the real
quotients. Ruby's `String#to_i`, `Integer#to_s`, `String#inspect`, `blank?`,
`downcase` and `split(/\s+/)` are modelled exactly where the rules depend on
them (module `RubyText`).

The reviews controller's `index` updates its `select_options` hash and its
review relation step by step, so it is a method with local state. The users
controller's `promote` and `demote` write `is_admin` on the loaded record,
so that record is a class whose methods modify it. Everything else in the
modelled code is expression-only and is modelled as functions and lemmas.

Where the code and its specs disagree, the model follows the code:

- `full_number` joins the department and the number with a space. The
  course spec expects a hyphen.
- The promote notice reads "… was successfully demoted from admin.", the
  same text as the demote notice (`UsersController.DemotedNotice`).
- Department's `sorted_by` has no `department_` prefix, and User's has no
  `deactivated_` prefix. Both options are rejected
  (`SortOptions.DepartmentRejectsDepartment`, `SortOptions.UserRejectsDeactivated`).
- Review defines no scopes, although its spec tests some. They are not modelled.
- course.rb declares no `department_id` or reviews association. The
  controllers still filter courses on `department_id`, and `with_averages`
  joins courses to reviews. The course row therefore carries a
  `departmentId`, and a review joins to a course through `courseId`.
- The migration that creates departments (db/migrate/20190626130812_create_departments.rb:9-11)
  also removes the courses' `school_id` and `department` columns, yet course.rb
  scopes its uniqueness checks on exactly those columns. `Courses.CourseErrors`
  follows course.rb's text: the course row keeps `schoolId` and `department`.

## Model

| member | source | states |
|---|---|---|
| RubyText.Blank | app/models/department.rb:23 | `blank?`: nil, the empty string and strings of white space only are blank |
| RubyText.Downcase | app/models/department.rb:26 | ASCII `downcase` keeps the length and maps each character through LowerChar, which leaves no capital letter |
| RubyText.DowncaseIdempotent | app/models/department.rb:26 | lowercasing twice is lowercasing once |
| RubyText.SplitWs | app/models/department.rb:26 | `split(/\s+/)` gives the words of the text, preceded by one empty field when the text starts with white space, and nothing for text without words |
| RubyText.WordsOfSpace | app/models/department.rb:26 | white space alone has no words |
| RubyText.WordsOfWord | app/models/department.rb:26 | a run of non-space characters is its own only word |
| RubyText.WordsSplitAtSpace | app/models/department.rb:26 | a white-space character separates: the words of a + c + b are the words of a followed by those of b |
| RubyText.WordsOfJoinSpaced | app/models/department.rb:26 | splitting words joined by single spaces gives back exactly those words |
| RubyText.NotBlankHasWords | app/models/department.rb:23-26 | a query that is not blank has at least one term |
| RubyText.ToI | app/controllers/reviews_controller.rb:133-143 | `String#to_i`: skip white space, read a sign and digits, 0 when nothing parses; its readings are fixed by ToINonZero and ToIOfIntToString |
| RubyText.IntToString | app/models/review.rb:35 | `Integer#to_s`; ToIOfIntToString reads it back |
| RubyText.ToINonZero | app/controllers/reviews_controller.rb:133-143 | `to_i` is non-zero exactly when the digits it reads include a non-zero digit |
| RubyText.ToIOfIntToString | app/models/review.rb:35 | `to_i` reads back the number `Integer#to_s` printed, whatever non-digit text follows it |
| RubyText.Inspect | app/models/department.rb:68 | `inspect` output is wrapped in double quotes |
| RubyText.InspectPlain | app/models/department.rb:68 | a string of plain characters is inspected as itself in quotes |
| RubyText.UninspectInspect | app/models/department.rb:68 | unescaping the inspected text gives back the original string |
| RubyText.InspectInjective | app/models/department.rb:68 | distinct options give distinct error messages |
| RubyText.SingleLineAnchors | app/models/department.rb:51-53 | on text without a newline, the `^` and `$` line anchors mean "starts with" and "ends with" |
| Seqs.Filter | app/models/user.rb:21-23 | a `where` keeps exactly the rows that pass, in table order |
| Seqs.FilterIdempotent | app/models/user.rb:21-23 | applying one `where` twice is applying it once |
| Seqs.FilterCommute | app/controllers/reviews_controller.rb:24-45 | two `where` restrictions commute |
| SqlLike.Like | app/models/department.rb:39-41 | the LIKE predicate: `%` any run, `_` one character, anything else itself; its laws follow |
| SqlLike.PercentMatchesAll | app/models/department.rb:39-41 | the pattern `%` matches every string |
| SqlLike.CollapsePercents | app/models/department.rb:30 | `gsub(/%+/, '%')` keeps the first and last character and leaves no `%%` |
| SqlLike.CollapsePreservesLike | app/models/department.rb:30 | collapsing runs of `%` never changes what a pattern matches |
| SqlLike.LiteralThenPercent | app/models/department.rb:39-41 | a literal followed by `%` matches exactly the strings with that prefix |
| SqlLike.LeadingPercent | app/models/department.rb:39-41 | a leading `%` matches iff the rest of the pattern matches some suffix |
| SqlLike.SubstringPattern | app/models/department.rb:39-41 | `%t%` with a literal t matches exactly the strings that contain t |
| SearchQuery.StarToPercent | app/models/department.rb:30 | `gsub('*', '%')` replaces each star and nothing else |
| SearchQuery.Terms | app/models/department.rb:26 | `query.downcase.split(/\s+/)`; SplitWs and the Words lemmas fix the fields, SingleWordTerms and LeadingSpaceFirstTerm the common cases |
| SearchQuery.TermPattern | app/models/department.rb:29-31 | every term pattern starts and ends with `%`, has no `*` and no `%%` |
| SearchQuery.Patterns | app/models/user.rb:32-34 | one pattern per term, in order |
| SearchQuery.TermPatternMeaning | app/models/department.rb:30 | a term pattern matches what `%` + term with stars as `%` + `%` matches |
| SearchQuery.EmptyTermMatchesAll | app/models/department.rb:26-31 | the empty term becomes `%`, which matches every value |
| SearchQuery.LeadingSpaceFirstTerm | app/models/department.rb:26 | a query starting with white space has an empty first term whose pattern is `%` |
| SearchQuery.LiteralTermIsSubstring | app/models/department.rb:30 | a term without `*`, `%` or `_` matches exactly the values that contain it |
| SearchQuery.Compile | app/models/department.rb:22-47 | a blank query gives no condition; otherwise there is at least one term and the bind count is columns × terms |
| SearchQuery.PlaceholdersMatchBinds | app/models/department.rb:36-45 | the SQL text holds as many `?` placeholders as there are bind arguments |
| SearchQuery.BindArgsAt | app/models/department.rb:45 | bind argument k·n+j is term k's pattern, repeated once per column |
| SearchQuery.BindsMatchMeaning | app/models/department.rb:36-46 | the AND of OR groups holds iff every pattern LIKE-matches some column value |
| SearchQuery.CompiledConditionMeaning | app/models/user.rb:39-47 | a row passes the compiled condition iff every term matches one of its searched values |
| SearchQuery.LiteralQueryIsSubstringSearch | app/models/user.rb:25-48 | for any non-blank query without wildcards, a row matches iff every term, the empty leading one included, is contained in a non-NULL searched value |
| SearchQuery.SingleWordTerms | app/models/department.rb:26 | a lowercase word is its own single term |
| SearchQuery.SingleWordSearch | app/models/department.rb:36-46 | a one-word search matches iff some searched value contains the word |
| SortOptions.FirstMatchFrom | app/models/department.rb:52-69 | `case` tries the prefixes in order and the first match wins |
| SortOptions.SortedBy | app/models/department.rb:49-69 | an error iff no prefix matches, naming the inspected option; otherwise desc iff the option ends in desc, on the first matching prefix |
| SortOptions.SortedByParam | app/models/department.rb:49-69 | a nil option: `match?` is false and `nil.to_s` is "", so with non-empty prefixes it raises "Invalid sort option: nil"; a string option is SortedBy |
| SortOptions.NilSortOptionRejected | app/models/user.rb:50-62 | nil raises "Invalid sort option: nil" for both the department and the user table |
| SortOptions.DepartmentSortedBy | app/models/department.rb:49-69 | the department dispatch over the seven prefixes in source order |
| SortOptions.UserSortedBy | app/models/user.rb:50-62 | the user dispatch over the three prefixes in source order |
| SortOptions.InvalidSortOptionNamesOption | app/models/user.rb:61 | the error message gives back the exact option |
| SortOptions.SingleLineDirection | app/models/user.rb:52 | on a one-line option, desc iff the option ends with "desc" |
| SortOptions.SortedByPicks | app/models/user.rb:53-59 | a one-line option picks the column of its first matching prefix |
| SortOptions.SortedByOption | app/models/user.rb:53-59 | an option made of the i-th prefix and "asc"/"desc", started by no earlier prefix, selects the i-th column in that direction |
| SortOptions.SortedByRejectsLine | app/models/user.rb:60-61 | a one-line option with no matching prefix raises "Invalid sort option" |
| SortOptions.DepartmentShortNameAsc | app/models/department.rb:53-54 | short_name_asc is caught by the short_name_ prefix, ahead of name_ |
| SortOptions.DepartmentSchoolAsc | app/models/department.rb:57-58 | school_name_asc sorts by school name ascending |
| SortOptions.DepartmentChoicesAccepted | app/models/department.rb:108-121 | every offered option sorts by the column and in the direction its label names, and the default name_desc sorts by name descending |
| SortOptions.DepartmentRejectsUnknown | app/models/department.rb:67-68 | "oh_no" raises `Invalid sort option: "oh_no"` |
| SortOptions.DepartmentRejectsDepartment | app/models/department.rb:52-68 | department_asc is rejected: there is no department_ prefix |
| SortOptions.UserYearsDesc | app/models/user.rb:56-57 | years_experience_desc sorts by experience descending |
| SortOptions.UserChoicesAccepted | app/models/user.rb:74-83 | every offered option sorts by the column and in the direction its label names, and the default email_desc sorts by email descending |
| SortOptions.UserRejectsDeactivated | app/models/user.rb:53-61 | deactivated_desc is rejected: there is no deactivated_ prefix |
| Validations.PresenceOf | app/models/school.rb:4-5 | no error iff the string is not blank; else one "can't be blank" |
| Validations.PresenceOfValue | app/models/review.rb:4-5 | no error iff the value is not nil |
| Validations.NumericalityIn | app/models/review.rb:6-11 | no error iff the value is a number inside the inclusive range (the Rails 7.0 meaning of `in:`); nil is not a number |
| Validations.ParentExists | app/models/review.rb:13-14 | `belongs_to`: no error iff the referenced row exists |
| Validations.Folded | app/models/school.rb:4 | case-insensitive comparison lowercases the value and keeps NULL |
| Validations.FoldedIdempotent | app/models/school.rb:4 | folding twice is folding once |
| Validations.UniquenessOf | app/models/user.rb:11 | no error iff no stored row has the same key |
| Validations.UniqueAppend | app/models/user.rb:11 | appending a row keeps keys distinct iff the table was unique and the key is free |
| Validations.UniqueFilter | app/models/department.rb:7 | deleting rows never breaks uniqueness |
| Schools.SchoolErrors | app/models/school.rb:4-5 | no error iff name and short_name are present and each is free ignoring case |
| Schools.CreateSchool | app/models/school.rb:4-5 | a valid table stays valid after an insert iff the insert has no errors |
| Schools.SchoolNameIgnoresCase | app/models/school.rb:4 | a name equal to a stored one ignoring case is taken |
| Schools.SchoolShortNameIgnoresCase | app/models/school.rb:5 | a short name equal to a stored one ignoring case is taken |
| Courses.CourseErrors | app/models/course.rb:4-7 | no error iff name, department and number are present, the name is free in the school, the number is free in the department, and the school exists |
| Courses.CreateCourse | app/models/course.rb:4-7 | a valid table stays valid after an insert iff the insert has no errors |
| Courses.FullNumber | app/models/course.rb:9-11 | "#{department} #{number}" with nil as ""; FullNumberInjective reads it back |
| Courses.FullNumberInjective | app/models/course.rb:9-11 | when department names have no space, the full number determines department and number |
| Courses.FullNumbersDistinct | app/models/course.rb:6-11 | in a valid table whose department names have no space, no two courses share a full number |
| Courses.SharedNumberAcrossDepartments | app/models/course.rb:6 | two departments may each have a course numbered 101 |
| Reviews.ReviewErrors | app/models/review.rb:4-14 | no error iff user_id is present and free for the course, every range holds, and course and user exist; a missing rating is the first error |
| Reviews.CreateReview | app/models/review.rb:4-14 | a valid table stays valid after an insert iff the insert has no errors |
| Reviews.OneReviewPerUserAndCourse | app/models/review.rb:5 | no two stored reviews share user and course |
| Reviews.LetterGrade | app/models/review.rb:17-32 | the result is one of A, B, C, D, F or Error; the bands are stated by LetterGradeBands |
| Reviews.LetterGradeBands | app/models/review.rb:17-32 | A for 90..100, B for 80..89, C for 70..79, D for 60..69, F for 0..59, Error otherwise |
| Reviews.LetterGradeError | app/models/review.rb:17-32 | "Error" exactly for nil or out-of-range grades |
| Reviews.LetterGradeMonotone | app/models/review.rb:17-32 | a higher valid grade never earns a lower letter |
| Reviews.StoredReviewsHaveLetters | app/models/review.rb:6-32 | under the Rails 7.0 meaning of `in:`, a review that passed validation never shows "Error" |
| Reviews.DisplayGrade | app/models/review.rb:34-36 | a nil grade displays as "% (Error)" |
| Reviews.DisplayGradeReadsBack | app/models/review.rb:34-36 | `to_i` of the displayed grade is the grade |
| Reviews.DisplayGradeShowsLetter | app/models/review.rb:34-36 | the display ends with "% (", the letter and ")", and what precedes that is the grade's decimal digits |
| Reviews.DisplayNinety | app/models/review.rb:34-36 | 90 displays as "90% (A)" |
| Users.UserErrors | app/models/user.rb:11 | no error iff the email is present and free ignoring case |
| Users.CreateUser | app/models/user.rb:11 | a valid table stays valid after an insert iff the insert has no errors |
| Users.UserEmailIgnoresCase | app/models/user.rb:11 | an email equal to a stored one ignoring case is taken |
| Users.IsAdmin | app/models/user.rb:65-67 | `admin?` is the is_admin column |
| Users.Admins | app/models/user.rb:21-23 | exactly the users with is_admin |
| Users.AdminsIdempotent | app/models/user.rb:21-23 | the admins of the admins are the admins |
| Users.AdminsScenario | app/models/user.rb:21-23 | of one non-admin and two admins, admins returns the two admins in order |
| Users.SearchUsers | app/models/user.rb:25-48 | a blank query returns every user; any query returns a subset |
| Users.SearchUsersMeaning | app/models/user.rb:25-48 | a user is found iff their email is not NULL and every term LIKE-matches it lowercased |
| Users.SingleWordMatchesUser | app/models/user.rb:39-47 | a one-word search finds exactly the users whose lowercased email contains it |
| Users.UnicornsUserSearch | app/models/user.rb:25-48 | "unicorns" finds only unicorns@gmail.com |
| Departments.DepartmentErrors | app/models/department.rb:4-6 | no error iff name and short_name are present, the short name is free in the school ignoring case, and the school exists |
| Departments.CreateDepartment | app/models/department.rb:4-6 | a valid table stays valid after an insert iff the insert has no errors |
| Departments.ShortNameScopedToSchool | app/models/department.rb:5 | the same short name in another case is taken in the same school but free in another |
| Departments.SchoolOf | app/models/department.rb:36 | the joined school is a stored school with the department's school_id; none when no school has that id |
| Departments.SearchDepartments | app/models/department.rb:22-47 | a blank query returns every department; any query returns a subset |
| Departments.SearchDepartmentsMeaning | app/models/department.rb:36-46 | a department is found iff it has a school and every term matches its name, short name or school name, lowercased |
| Departments.SingleWordMatchesDepartment | app/models/department.rb:36-46 | a one-word search finds a joined department iff a searched value contains the word |
| Departments.UnicornsDepartmentSearch | app/models/department.rb:22-47 | "unicorns" finds only the department named unicorns |
| Departments.WithSchoolIdIn | app/models/department.rb:72-74 | exactly the departments whose school_id is in the list; a NULL school_id never is |
| Departments.WithSchoolId | app/models/department.rb:72-74 | exactly the departments whose school_id is among the splatted argument |
| Departments.WithSchoolIdArguments | app/models/department.rb:72-74 | a single id acts as a one-element list, and nil selects nothing |
| Departments.MetricValues | app/models/department.rb:92-101 | the non-NULL values of a metric over the reviews of the department's courses |
| Departments.MetricValuesOfRated | app/models/department.rb:92-101 | the collected values are those of the department's rated reviews, one per review in table order, so equal values count once per review |
| Departments.MetricValuesAppend | app/models/department.rb:92-101 | collecting over two concatenated tables concatenates the collected values |
| Departments.AverageOf | app/models/department.rb:95-98 | AVG is NULL iff there are no values, otherwise their sum over their count |
| Departments.WithAverages | app/models/department.rb:92-101 | one row per department, in order |
| Departments.WithAveragesRow | app/models/department.rb:92-101 | each average is NULL iff the department has no rated review, otherwise the sum of the rated reviews' values over their number |
| Departments.WithAveragesNull | app/models/department.rb:94-99 | an average is NULL iff no review of the department's courses has a value for it |
| Departments.NoReviewsNoAverage | app/models/department.rb:92-101 | a department without reviews gets NULL averages |
| Departments.AverageBounds | app/models/review.rb:6-11 | the average of values in lo..hi lies in lo..hi |
| Departments.CrossMultiply | app/models/department.rb:76-90 | the integer comparison equals the comparison of the real quotients |
| Departments.ComparesMeaning | app/models/department.rb:76-90 | a HAVING test passes iff the average exists and its exact value clears the threshold |
| Departments.ApplyHaving | app/models/department.rb:76-90 | exactly the rows that pass, in order |
| Departments.WithAvgRatingGte | app/models/department.rb:76-78 | HAVING avg(rating) >= threshold; AverageFiltersMeaning states its rows |
| Departments.WithAvgDifficultyLte | app/models/department.rb:80-82 | HAVING avg(difficulty) <= threshold; AverageFiltersMeaning states its rows |
| Departments.WithAvgWorkLte | app/models/department.rb:84-86 | HAVING avg(work_required) <= threshold; AverageFiltersMeaning states its rows |
| Departments.WithAvgGradeGte | app/models/department.rb:88-90 | HAVING avg(grade) >= threshold; AverageFiltersMeaning states its rows |
| Departments.NullAverageNeverPasses | app/models/department.rb:76-90 | a NULL average passes no filter |
| Departments.AverageFiltersMeaning | app/models/department.rb:76-90 | rating and grade keep averages at least the threshold; difficulty and work keep averages at most it |
| Departments.HavingCommute | app/models/department.rb:76-90 | the filters can be chained in either order |
| Departments.HavingIdempotent | app/models/department.rb:76-90 | a filter applied twice equals it applied once |
| Departments.RatingThresholdScenario | app/models/department.rb:76-101 | three reviews rated 5, 5 and 8 give their department the average 6 and another department NULL; a minimum of 6 keeps the first alone, 6.25 keeps neither |
| Departments.DestroyDepartment | app/models/department.rb:7 | the department and all its courses are removed, and nothing else |
| Departments.DestroyKeepsTablesValid | app/models/department.rb:7 | destroying keeps both tables valid |
| Params.AbsentIds | app/controllers/reviews_controller.rb:133-143 | nil and text not starting with a number count as absent |
| Params.ZeroIsAbsent | app/controllers/reviews_controller.rb:133-143 | "0" counts as absent |
| Params.AllIsAbsent | app/controllers/reviews_controller.rb:133-143 | "all" counts as absent |
| Params.PrintedIdExists | app/controllers/reviews_controller.rb:133-143 | a printed number counts as given iff it is non-zero |
| Params.IdExists | app/controllers/reviews_controller.rb:133-143 | an id counts as given iff its `to_i` is non-zero; AbsentIds, ZeroIsAbsent and PrintedIdExists state which texts |
| Params.FindById | app/controllers/reviews_controller.rb:146-156 | `find` returns a stored row whose id is the parameter's `to_i`, and fails iff the parameter is nil or blank (the integer key casts a blank string to nil) or no row has that id |
| Params.BlankIdFindsNothing | app/controllers/users_controller.rb:74-77 | a blank id string finds no row, although its `to_i` is 0 |
| Params.Require | app/controllers/reviews_controller.rb:164 | `require` fails as missing iff the key is absent or blank; otherwise it gives the nested hash |
| Params.Permit | app/controllers/reviews_controller.rb:164-174 | only whitelisted keys, values unchanged, and every whitelisted scalar kept |
| Params.PermitIdempotent | app/controllers/reviews_controller.rb:164-174 | permitting twice is permitting once |
| Params.PermitNarrowing | app/controllers/reviews_controller.rb:164-174 | a narrower whitelist after a wider one is the narrower one alone |
| Params.RequirePermit | app/controllers/reviews_controller.rb:163-175 | succeeds iff require does; only whitelisted keys, with their submitted values, and every whitelisted scalar that was sent |
| Params.ReviewParams | app/controllers/reviews_controller.rb:163-175 | only the eleven listed review keys, values unchanged, each kept when sent as a scalar |
| Params.CourseParams | app/controllers/courses_controller.rb:145-147 | only name, number and department_id, values unchanged, each kept when sent as a scalar |
| Params.DepartmentParams | app/controllers/departments_controller.rb:117-119 | only name, short_name and school_id, values unchanged, each kept when sent as a scalar |
| Params.UserParams | app/controllers/users_controller.rb:80-82 | only name, email, years_experience and is_admin, values unchanged, each kept when sent as a scalar |
| Params.ReviewParamsDropsOthers | app/controllers/reviews_controller.rb:163-175 | id and timestamps never get through, and every kept value is a scalar |
| Params.IsAdminOnlyThroughUserParams | app/controllers/users_controller.rb:80-82 | is_admin passes the user whitelist and never the course whitelist |
| Policies.AdminCheck | app/policies/user_policy.rb:9-11 | `user.admin?` is is_admin, and raises for a nil user |
| Policies.CanUpdateReview | app/policies/review_policy.rb:9-11 | update? raises exactly for a nil user; UpdateMeaning states when it allows |
| Policies.CanDestroyReview | app/policies/review_policy.rb:17-19 | destroy? raises exactly for a nil user; DestroyIsUpdate equates it with update? |
| Policies.CanCreateReview | app/policies/review_policy.rb:13-15 | create? allows a present user who is not deactivated; CreateMeaning states it for every user and review |
| Policies.UserPolicyAllows | app/policies/user_policy.rb:9-31 | every user action raises for a nil user and is otherwise `admin?` |
| Policies.UpdateMeaning | app/policies/review_policy.rb:9-11 | update is allowed iff the user is an admin or the review's author; a nil user raises |
| Policies.DestroyIsUpdate | app/policies/review_policy.rb:9-19 | destroy equals update for every user and review |
| Policies.AdminMayEditAnyReview | app/policies/review_policy.rb:9-19 | an admin may update and destroy any review |
| Policies.OthersMayNotEdit | app/policies/review_policy.rb:9-19 | a non-admin may not update or destroy another user's review |
| Policies.CreateMeaning | app/policies/review_policy.rb:13-15 | create is allowed iff the user is present and not deactivated, admin or not, whatever the review |
| Policies.UserPolicyIsAdminOnly | app/policies/user_policy.rb:4-31 | every action equals admin?, whatever the updated user; a nil user raises |
| Policies.UserPolicyAllOrNothing | app/policies/user_policy.rb:9-31 | a non-admin is denied every action, an admin allowed every one |
| ReviewsController.Index | app/controllers/reviews_controller.rb:13-45 | fails iff a given id is not found; sorted_by always offered; with_school_id iff no school; with_department_id and with_course_id dropped once given, else the narrowest scope's list; kept reviews are exactly those passing every given restriction |
| CoursesController.Index | app/controllers/courses_controller.rb:13-47 | department first: its courses and sorted_by only; else a school's courses with sorted_by and with_department_id; else all courses and all three filters |
| CoursesController.DepartmentTakesPrecedence | app/controllers/courses_controller.rb:15-46 | with a department given, which existing school is named changes nothing |
| CoursesController.UnscopedIndex | app/controllers/courses_controller.rb:15-25 | school "all" offers sorted_by, with_school_id and with_department_id |
| DepartmentsController.Index | app/controllers/departments_controller.rb:11-33 | without a school: every department row with sorted_by and with_school_id; with one: its rows and sorted_by only; fails iff the school is not found |
| DepartmentsController.IndexForSchoolNarrowsAll | app/controllers/departments_controller.rb:13-31 | a school's listing is the unscoped listing filtered to that school_id, same rows in the same order; a school of "all" gives the unscoped listing |
| DepartmentsController.Show | app/controllers/departments_controller.rb:37-47 | fails iff the department or school is not found; lists exactly the courses whose department_id is the department's |
| UsersController.UserRecord.Load | app/controllers/users_controller.rb:74-77 | the record holds the row it was loaded from |
| UsersController.UserRecord.Promote | app/controllers/users_controller.rb:60-63 | is_admin becomes true, every other attribute is unchanged, and the notice says "demoted" |
| UsersController.UserRecord.Demote | app/controllers/users_controller.rb:65-69 | is_admin becomes false, every other attribute is unchanged |
| UsersController.Promoted | app/controllers/users_controller.rb:60-63 | the promoted row is an admin and agrees with the old row everywhere else |
| UsersController.Demoted | app/controllers/users_controller.rb:65-69 | the demoted row is not an admin and agrees with the old row everywhere else |
| UsersController.DemotedNotice | app/controllers/users_controller.rb:62-68 | the email, nil as "", followed by " was successfully demoted from admin." |
| UsersController.PromoteDemoteIdempotent | app/controllers/users_controller.rb:60-69 | promote and demote are idempotent, each undoes the other, and promoting an admin changes nothing |
| UsersController.PromoteTwice | app/controllers/users_controller.rb:60-63 | promoting twice leaves the row promoted once, with the same notice both times |
| UsersController.SetUser | app/controllers/users_controller.rb:74-77 | fails with RecordNotFound iff a given id is not found, in particular when a given id or user_id is blank; a given user_id wins over id; with neither, no user |

## Left out

- Unicode case folding: `downcase` and `LOWER` are modelled on ASCII letters only.
- PostgreSQL's backslash escape in LIKE patterns: the model follows the standard predicate without an ESCAPE character.
- `String#inspect` escapes for control characters other than `\n \t \r \f \v \b \a \e` and for non-printable Unicode: such characters pass through unescaped.
- The SQL ordering itself: collation, and how NULL averages sort. `sorted_by` is modelled down to the chosen column and direction.
- Database ids are not checked for uniqueness. `find` returns the first row with the id.
- Devise authentication, CanCan `load_and_authorize_resource`, Kaminari pagination, filterrific initialisation, and `respond_to`/`render`/`redirect_to`.
- The create, update and destroy actions, as persistence side effects. The validations they run are modelled as table invariants.
- UsersController.UserRecord.Promote: does not model `update` failing validation. The in-memory attribute is then set while the stored row keeps its old value.
- Reviews.ReviewErrors: the year's upper bound is a parameter `bootYear`. The source reads the clock once, when the class is loaded.
- Reviews.ReviewErrors: the ranges are modelled with the meaning `numericality: { in: lo..hi }` has from Rails 7.0 on. The migrations are written for Rails 5.2, whose numericality validator ignores `in:` and checks only that the value is a number; under that version an out-of-range grade is saved and displays "Error".
- Validations.NumericalityIn: holds only under the Rails 7.0 meaning of `numericality: { in: lo..hi }`. Before 7.0 the option is ignored and only "is a number" is checked, and the application's own test spec/models/review_spec.rb:193-196 saves a review with grade -2, which the range check would refuse.
- Reviews.StoredReviewsHaveLetters: holds only under that same Rails 7.0 reading. Under the version the migrations target, a stored grade outside 0..100 displays "Error", as spec/models/review_spec.rb:193-196 expects.
- Users.UserErrors: does not model the validations Devise's `:validatable` adds (user.rb:8-9) ahead of user.rb:11: email presence (so a nil email gets "can't be blank" twice), email uniqueness, email format, password presence for a new record, password confirmation and password length. A user with the email "nobody" and no password has no error here, while the application refuses to save it.
- Departments.WithAvgRatingGte / WithAvgDifficultyLte / WithAvgWorkLte / WithAvgGradeGte: thresholds are exact rationals. The application passes the form's text to `having(... >= ?)`, where PostgreSQL casts it to numeric; non-numeric text such as "abc" raises in the database, and that error path is not modelled.
- The review columns notes, experience_with_topic and teacher, which no modelled rule reads. They appear only in the `review_params` whitelist.
- `User#sha_email`: a SHA-1 digest from a library.
- The contents of `options_for_select` and of the `options_for_sorted_by` lists of Review, Course and School. Those methods are not part of this model; an option list is named by the query that builds it (`SelectOptions.OptionSource`).
- `Course.with_averages` is called by the courses and departments controllers but not defined in course.rb. CoursesController.Index and DepartmentsController.Show take the course rows as given.
- ReviewsController.Index: requires a school id whenever a department id is given. Without the school join, the department restriction's SQL names a table the query does not have.
- Review scopes and the `department_` and `deactivated_` sort prefixes, which the specs test but the application does not define.
- School has `has_many :courses` without `dependent`, so destroying a school is not modelled as a cascade.
- The id parameters in `with_school_id` are integers. Form values arrive as strings, and the database casts them.
- JavaScript assets, seeds, migrations, routes, and the application, registrations and schools controllers.
