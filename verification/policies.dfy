/**
 * The authorization policies: who may update, create and destroy a review,
 * and the admin-only user management actions. The acting user is nil when
 * nobody is signed in; asking a nil user `admin?` is a NoMethodError.
 */
module Policies {
  import opened Wrappers
  import opened Users
  import opened Reviews

  datatype PolicyError = NoMethodOnNil   // NoMethodError: undefined method 'admin?' for nil

  /** `user.admin?`, evaluated on a user that may be nil. */
  function AdminCheck(user: Option<User>): (r: Result<bool, PolicyError>)
    ensures r.Err? <==> user.None?
    ensures r.Ok? ==> (r.value <==> IsAdmin(user.value))
  {
    match user
    case None => Err(NoMethodOnNil)
    case Some(u) => Ok(IsAdmin(u))
  }

  /** `review.user == user`: records compare by id. */
  predicate IsAuthor(u: User, review: Review)
  {
    review.userId == Some(u.id)
  }

  // ---------------------------------------------------------------------------
  // ReviewPolicy

  /** update?: `user.admin? || review.user == user`. */
  function CanUpdateReview(user: Option<User>, review: Review): (r: Result<bool, PolicyError>)
    ensures r.Err? <==> user.None?
  {
    match AdminCheck(user)
    case Err(e) => Err(e)
    case Ok(admin) => Ok(admin || IsAuthor(user.value, review))
  }

  /** destroy?: written out separately in the policy, with the same test as update?. */
  function CanDestroyReview(user: Option<User>, review: Review): (r: Result<bool, PolicyError>)
    ensures r.Err? <==> user.None?
  {
    match user
    case None => Err(NoMethodOnNil)
    case Some(u) => Ok(IsAdmin(u) || review.userId == Some(u.id))
  }

  /** create?: `!(user.blank? || user.deactivated)`. */
  predicate CanCreateReview(user: Option<User>, review: Review)
  {
    !(user.None? || user.value.deactivated)
  }

  /** A signed-in user may update a review exactly when they are an admin or its author; nil raises. */
  lemma UpdateMeaning(user: Option<User>, review: Review)
    ensures CanUpdateReview(user, review).Err? <==> user.None?
    ensures user.Some? ==>
      (CanUpdateReview(user, review) == Ok(true) <==> user.value.isAdmin || review.userId == Some(user.value.id))
  {
  }

  /** destroy? and update? agree on every user and review. */
  lemma DestroyIsUpdate(user: Option<User>, review: Review)
    ensures CanDestroyReview(user, review) == CanUpdateReview(user, review)
  {
  }

  /** An admin may update and destroy any review, whoever wrote it. */
  lemma AdminMayEditAnyReview(u: User, review: Review)
    requires IsAdmin(u)
    ensures CanUpdateReview(Some(u), review) == Ok(true)
    ensures CanDestroyReview(Some(u), review) == Ok(true)
  {
  }

  /** A non-admin may not touch another user's review. */
  lemma OthersMayNotEdit(u: User, review: Review)
    requires !IsAdmin(u) && review.userId != Some(u.id)
    ensures CanUpdateReview(Some(u), review) == Ok(false)
    ensures CanDestroyReview(Some(u), review) == Ok(false)
  {
  }

  /** create? holds exactly for a present, non-deactivated user, admin or not, whatever the review. */
  lemma CreateMeaning(user: Option<User>, review: Review, other: Review)
    ensures !CanCreateReview(None, review)
    ensures user.Some? && user.value.deactivated ==> !CanCreateReview(user, review)
    ensures CanCreateReview(user, review) <==> user.Some? && !user.value.deactivated
    ensures CanCreateReview(user, review) == CanCreateReview(user, other)
  {
  }

  // ---------------------------------------------------------------------------
  // UserPolicy

  datatype UserAction = Index | Show | Activate | Deactivate | Promote | Demote

  /** index?, show?, activate?, deactivate?, promote?, demote?: each is `user.admin?`; updated_user is stored and never read. */
  function UserPolicyAllows(action: UserAction, user: Option<User>, updatedUser: Option<User>): (r: Result<bool, PolicyError>)
    ensures r.Err? <==> user.None?
    ensures r.Ok? ==> (r.value <==> IsAdmin(user.value))
  {
    match action
    case Index => AdminCheck(user)
    case Show => AdminCheck(user)
    case Activate => AdminCheck(user)
    case Deactivate => AdminCheck(user)
    case Promote => AdminCheck(user)
    case Demote => AdminCheck(user)
  }

  /** Every user action is decided by admin? alone: the target user never matters. */
  lemma UserPolicyIsAdminOnly(action: UserAction, user: Option<User>, target1: Option<User>, target2: Option<User>)
    ensures UserPolicyAllows(action, user, target1) == UserPolicyAllows(action, user, target2)
    ensures UserPolicyAllows(action, user, target1).Err? <==> user.None?
    ensures user.Some? ==> UserPolicyAllows(action, user, target1) == Ok(user.value.isAdmin)
  {
  }

  /** A non-admin is denied every user action, and an admin is allowed every one. */
  lemma UserPolicyAllOrNothing(u: User, a1: UserAction, a2: UserAction, target: Option<User>)
    ensures UserPolicyAllows(a1, Some(u), target) == UserPolicyAllows(a2, Some(u), target)
    ensures !IsAdmin(u) ==> UserPolicyAllows(a1, Some(u), target) == Ok(false)
    ensures IsAdmin(u) ==> UserPolicyAllows(a1, Some(u), target) == Ok(true)
  {
  }
}
