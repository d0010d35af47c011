/**
 * UsersController: set_user picks the user from params[:id] and then
 * params[:user_id]; promote and demote update the loaded record's is_admin
 * in place and build the flash notice.
 */
module UsersController {
  import opened Wrappers
  import opened RubyText
  import opened Params
  import opened SelectOptions
  import opened Users

  /** The loaded @user record, whose attributes update writes in place. */
  class UserRecord {
    var id: nat
    var email: Option<string>
    var isAdmin: bool
    var deactivated: bool
    var yearsExperience: Option<int>

    /** The row the record holds. */
    function Row(): User
      reads this
    {
      User(id, email, isAdmin, deactivated, yearsExperience)
    }

    constructor Load(u: User)
      ensures Row() == u
    {
      id := u.id;
      email := u.email;
      isAdmin := u.isAdmin;
      deactivated := u.deactivated;
      yearsExperience := u.yearsExperience;
    }

    /** promote: update(is_admin: true), then the notice. */
    method Promote() returns (notice: string)
      modifies this
      ensures Row() == Promoted(old(Row()))
      ensures notice == DemotedNotice(email)
    {
      isAdmin := true;
      notice := DemotedNotice(email);
    }

    /** demote: update(is_admin: false), then the notice. */
    method Demote() returns (notice: string)
      modifies this
      ensures Row() == Demoted(old(Row()))
      ensures notice == DemotedNotice(email)
    {
      isAdmin := false;
      notice := DemotedNotice(email);
    }
  }

  /** The row after promote. */
  function Promoted(u: User): (v: User)
    ensures IsAdmin(v)
    ensures v.id == u.id && v.email == u.email && v.deactivated == u.deactivated
      && v.yearsExperience == u.yearsExperience
  {
    u.(isAdmin := true)
  }

  /** The row after demote. */
  function Demoted(u: User): (v: User)
    ensures !IsAdmin(v)
    ensures v.id == u.id && v.email == u.email && v.deactivated == u.deactivated
      && v.yearsExperience == u.yearsExperience
  {
    u.(isAdmin := false)
  }

  /** "#{@user.email} was successfully demoted from admin.": both actions use this text; nil interpolates as "". */
  function DemotedNotice(email: Option<string>): (s: string)
    ensures email.Some? ==> s == email.value + " was successfully demoted from admin."
    ensures email.None? ==> s == " was successfully demoted from admin."
  {
    (if email.Some? then email.value else "") + " was successfully demoted from admin."
  }

  /** Promoting twice is promoting once; likewise demoting; and each undoes the other up to is_admin. */
  lemma PromoteDemoteIdempotent(u: User)
    ensures Promoted(Promoted(u)) == Promoted(u)
    ensures Demoted(Demoted(u)) == Demoted(u)
    ensures Demoted(Promoted(u)) == Demoted(u) && Promoted(Demoted(u)) == Promoted(u)
    ensures IsAdmin(u) ==> Promoted(u) == u
    ensures !IsAdmin(u) ==> Demoted(u) == u
  {
  }

  /** Promote after promote, on the record: the second call changes nothing, and both notices read "demoted". */
  method PromoteTwice(r: UserRecord) returns (first: string, second: string)
    modifies r
    ensures r.Row() == Promoted(old(r.Row()))
    ensures first == second == DemotedNotice(r.email)
  {
    first := r.Promote();
    var after := r.Row();
    second := r.Promote();
    PromoteDemoteIdempotent(after);
  }

  function UserIdOf(u: User): nat { u.id }

  /**
   * set_user: `@user = User.find(params[:id]) if params[:id]`, then the same
   * for params[:user_id]; any given string is truthy, and the later find wins.
   * With neither given @user stays nil.
   */
  method SetUser(idParam: Option<string>, userIdParam: Option<string>, users: seq<User>)
    returns (r: Result<Option<User>, FindError>)
    ensures r.Err? <==>
      (idParam.Some? && FindById(users, UserIdOf, idParam).None?)
      || (userIdParam.Some? && FindById(users, UserIdOf, userIdParam).None?)
    ensures r.Ok? && userIdParam.Some? ==> r.value == FindById(users, UserIdOf, userIdParam)
    ensures r.Ok? && userIdParam.None? && idParam.Some? ==> r.value == FindById(users, UserIdOf, idParam)
    ensures r.Ok? && userIdParam.None? && idParam.None? ==> r.value.None?
    ensures r.Ok? && r.value.Some? ==> r.value.value in users
    ensures r.Err? ==> r == Err(RecordNotFound("User"))
    ensures (idParam.Some? && Blank(idParam)) || (userIdParam.Some? && Blank(userIdParam)) ==> r.Err?
  {
    var user: Option<User> := None;
    if idParam.Some? {
      var found := FindById(users, UserIdOf, idParam);
      if found.None? {
        return Err(RecordNotFound("User"));
      }
      user := found;
    }
    if userIdParam.Some? {
      var found := FindById(users, UserIdOf, userIdParam);
      if found.None? {
        return Err(RecordNotFound("User"));
      }
      user := found;
    }
    return Ok(user);
  }
}
