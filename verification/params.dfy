/**
 * Request parameters as the controllers see them: the id tests on
 * params[:x].to_i, the record lookups `Model.find(params[:x])`, and the
 * strong-params `require(...).permit(...)` whitelists.
 */
module Params {
  import opened Wrappers
  import opened RubyText

  // ---------------------------------------------------------------------------
  // Ids in the query string

  /** `!params[:x].to_i.zero?`: an id counts as given when its to_i is non-zero. */
  predicate IdExists(p: Option<string>)
  {
    OptToI(p) != 0
  }

  /** A missing parameter, "all", "0" and text that does not start with a number count as absent. */
  lemma AbsentIds(s: string)
    requires s != [] && !IsSpace(s[0]) && !IsDigit(s[0]) && s[0] != '-' && s[0] != '+'
    ensures !IdExists(None)
    ensures !IdExists(Some(s))
  {
    assert SkipSpace(s) == s;
    assert SignOf(s) == (false, s);
    assert StripDecimalPrefix(s) == s;
  }

  /** "0" is absent too: its digits are all zero. */
  lemma ZeroIsAbsent()
    ensures !IdExists(Some("0"))
  {
    ToIOfIntToString(0, "");
    assert IntToString(0) + "" == "0";
  }

  /** The decimal text of a number is given exactly when the number is non-zero. */
  lemma PrintedIdExists(n: int)
    ensures IdExists(Some(IntToString(n))) <==> n != 0
  {
    ToIOfIntToString(n, "");
    assert IntToString(n) + "" == IntToString(n);
  }

  /** "all", the value the filter forms send for no choice. */
  lemma AllIsAbsent()
    ensures !IdExists(Some("all"))
  {
    AbsentIds("all");
  }

  /**
   * `Model.find(params[:x])`: the integer key type casts a blank string to
   * nil (`presence`) and any other string with to_i; nil finds nothing; a
   * missing row is ActiveRecord::RecordNotFound (None here).
   */
  function FindById<T>(rows: seq<T>, id: T -> nat, p: Option<string>): (r: Option<T>)
    ensures r.Some? ==> !Blank(p) && r.value in rows && id(r.value) == ToI(p.value)
    ensures r.None? <==> Blank(p) || forall x :: x in rows ==> id(x) != ToI(p.value)
  {
    if Blank(p) then None else FindFirst(rows, id, ToI(p.value))
  }

  /** A blank id parameter finds nothing, even where a row has id 0. */
  lemma BlankIdFindsNothing<T>(rows: seq<T>, id: T -> nat, s: string)
    requires forall i :: 0 <= i < |s| ==> IsUnicodeSpace(s[i])
    ensures FindById(rows, id, Some(s)).None?
    ensures ToI(s) == 0
  {
    BlankToIZero(s);
  }

  /** The first row whose id is k. */
  function FindFirst<T>(rows: seq<T>, id: T -> nat, k: int): (r: Option<T>)
    ensures r.Some? ==> r.value in rows && id(r.value) == k
    ensures r.None? ==> forall x :: x in rows ==> id(x) != k
  {
    if rows == [] then None
    else if id(rows[0]) == k then Some(rows[0])
    else FindFirst(rows[1..], id, k)
  }

  // ---------------------------------------------------------------------------
  // Strong parameters

  /** A parameter value: a string, nil, a nested hash or an array. */
  datatype ParamValue =
    | Str(s: string)
    | Null
    | Hash(fields: map<string, ParamValue>)
    | List(items: seq<ParamValue>)

  datatype ParamError =
    | ParameterMissing(key: string)   // ActionController::ParameterMissing
    | NotAHash(key: string)           // permit called on a string or array

  /** Object#present?: not nil, not a blank string, not an empty hash or array. */
  predicate Present(v: ParamValue)
  {
    match v
    case Str(s) => !Blank(Some(s))
    case Null => false
    case Hash(m) => |m| > 0
    case List(xs) => |xs| > 0
  }

  /** Scalars are what `permit(:key)` lets through; nested hashes and arrays need an explicit declaration. */
  predicate PermittedScalar(v: ParamValue)
  {
    v.Str? || v.Null?
  }

  /** params.require(key): the nested hash under key, or ParameterMissing when it is absent or blank. */
  function Require(params: map<string, ParamValue>, key: string): (r: Result<map<string, ParamValue>, ParamError>)
    ensures r.Err? && r.error.ParameterMissing? <==> key !in params || !Present(params[key])
    ensures r.Ok? <==> key in params && Present(params[key]) && params[key].Hash?
    ensures r.Ok? ==> r.value == params[key].fields
  {
    if key !in params || !Present(params[key]) then Err(ParameterMissing(key))
    else if !params[key].Hash? then Err(NotAHash(key))
    else Ok(params[key].fields)
  }

  /** permit(*keys): the whitelisted keys whose values are scalars. */
  function Permit(h: map<string, ParamValue>, keys: set<string>): (r: map<string, ParamValue>)
    ensures r.Keys <= keys && r.Keys <= h.Keys
    ensures forall k :: k in r ==> r[k] == h[k]
    ensures forall k :: k in h && k in keys && PermittedScalar(h[k]) ==> k in r
  {
    map k | k in h && k in keys && PermittedScalar(h[k]) :: h[k]
  }

  /** Permitting twice with the same keys changes nothing. */
  lemma PermitIdempotent(h: map<string, ParamValue>, keys: set<string>)
    ensures Permit(Permit(h, keys), keys) == Permit(h, keys)
  {
    var p := Permit(h, keys);
    assert Permit(p, keys).Keys == p.Keys;
  }

  /** A narrower whitelist applied after a wider one is the narrower one alone. */
  lemma PermitNarrowing(h: map<string, ParamValue>, wide: set<string>, narrow: set<string>)
    requires narrow <= wide
    ensures Permit(Permit(h, wide), narrow) == Permit(h, narrow)
  {
    assert Permit(Permit(h, wide), narrow).Keys == Permit(h, narrow).Keys;
  }

  /** require(key).permit(*keys) as one step. */
  function RequirePermit(params: map<string, ParamValue>, key: string, keys: set<string>): (r: Result<map<string, ParamValue>, ParamError>)
    ensures r.Ok? <==> Require(params, key).Ok?
    ensures r.Ok? ==> r.value.Keys <= keys
    ensures r.Ok? ==> forall k :: k in r.value ==> k in params[key].fields && r.value[k] == params[key].fields[k]
    ensures r.Ok? ==> forall k :: k in keys && k in params[key].fields && PermittedScalar(params[key].fields[k]) ==> k in r.value
  {
    match Require(params, key)
    case Err(e) => Err(e)
    case Ok(h) => Ok(Permit(h, keys))
  }

  /** The whitelists of the four controllers. */
  const ReviewKeys: set<string> := {"course_id", "user_id", "notes", "work_required", "difficulty",
    "rating", "experience_with_topic", "year", "term", "grade", "teacher"}
  const CourseKeys: set<string> := {"name", "number", "department_id"}
  const DepartmentKeys: set<string> := {"name", "short_name", "school_id"}
  const UserKeys: set<string> := {"name", "email", "years_experience", "is_admin"}

  /** review_params: the eleven review columns, values untouched; each one sent as a scalar is kept. */
  function ReviewParams(params: map<string, ParamValue>): (r: Result<map<string, ParamValue>, ParamError>)
    ensures r.Err? <==> Require(params, "review").Err?
    ensures r.Ok? ==> r.value.Keys <= ReviewKeys
    ensures r.Ok? ==> forall k :: k in r.value ==> k in params["review"].fields && r.value[k] == params["review"].fields[k]
    ensures r.Ok? ==> forall k :: k in ReviewKeys && k in params["review"].fields && PermittedScalar(params["review"].fields[k]) ==> k in r.value
  {
    RequirePermit(params, "review", ReviewKeys)
  }

  /** course_params: name, number and department_id, and those whenever sent as scalars. */
  function CourseParams(params: map<string, ParamValue>): (r: Result<map<string, ParamValue>, ParamError>)
    ensures r.Err? <==> Require(params, "course").Err?
    ensures r.Ok? ==> r.value.Keys <= CourseKeys
    ensures r.Ok? ==> forall k :: k in r.value ==> k in params["course"].fields && r.value[k] == params["course"].fields[k]
    ensures r.Ok? ==> forall k :: k in CourseKeys && k in params["course"].fields && PermittedScalar(params["course"].fields[k]) ==> k in r.value
  {
    RequirePermit(params, "course", CourseKeys)
  }

  /** department_params: name, short_name and school_id, and those whenever sent as scalars. */
  function DepartmentParams(params: map<string, ParamValue>): (r: Result<map<string, ParamValue>, ParamError>)
    ensures r.Err? <==> Require(params, "department").Err?
    ensures r.Ok? ==> r.value.Keys <= DepartmentKeys
    ensures r.Ok? ==> forall k :: k in r.value ==> k in params["department"].fields && r.value[k] == params["department"].fields[k]
    ensures r.Ok? ==> forall k :: k in DepartmentKeys && k in params["department"].fields && PermittedScalar(params["department"].fields[k]) ==> k in r.value
  {
    RequirePermit(params, "department", DepartmentKeys)
  }

  /** user_params: name, email, years_experience and is_admin, and those whenever sent as scalars. */
  function UserParams(params: map<string, ParamValue>): (r: Result<map<string, ParamValue>, ParamError>)
    ensures r.Err? <==> Require(params, "user").Err?
    ensures r.Ok? ==> r.value.Keys <= UserKeys
    ensures r.Ok? ==> forall k :: k in r.value ==> k in params["user"].fields && r.value[k] == params["user"].fields[k]
    ensures r.Ok? ==> forall k :: k in UserKeys && k in params["user"].fields && PermittedScalar(params["user"].fields[k]) ==> k in r.value
  {
    RequirePermit(params, "user", UserKeys)
  }

  /** A review form cannot smuggle in an id, a timestamp or a nested record. */
  lemma ReviewParamsDropsOthers(params: map<string, ParamValue>)
    requires ReviewParams(params).Ok?
    ensures "id" !in ReviewParams(params).value
    ensures "created_at" !in ReviewParams(params).value
    ensures forall k :: k in ReviewParams(params).value ==> PermittedScalar(ReviewParams(params).value[k])
  {
  }

  /** A user may not promote themselves by sending is_admin through the course form, and the user form keeps it. */
  lemma IsAdminOnlyThroughUserParams(params: map<string, ParamValue>)
    requires "user" in params && params["user"].Hash? && Present(params["user"])
    requires "is_admin" in params["user"].fields && params["user"].fields["is_admin"] == Str("true")
    ensures UserParams(params).Ok? && UserParams(params).value["is_admin"] == Str("true")
    ensures CourseParams(params).Ok? ==> "is_admin" !in CourseParams(params).value
  {
  }
}
