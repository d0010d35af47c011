/** The User model: email validation, the admins scope, admin? and search_query. */
module Users {
  import opened Wrappers
  import opened RubyText
  import opened SqlLike
  import opened Seqs
  import opened Validations
  import opened SearchQuery

  datatype User = User(
    id: nat,
    email: Option<string>,
    isAdmin: bool,
    deactivated: bool,
    yearsExperience: Option<int>)

  /** admin? */
  predicate IsAdmin(u: User)
  {
    u.isAdmin
  }

  // ---------------------------------------------------------------------------
  // Validations

  function UserEmailKey(u: User): Option<string> { Folded(u.email) }

  /** The errors of saving u next to the stored users. */
  function UserErrors(stored: seq<User>, u: User): (errs: seq<FieldError>)
    ensures errs == [] <==> !Blank(u.email) && !Taken(stored, UserEmailKey, UserEmailKey(u))
  {
    PresenceOf("email", u.email) + UniquenessOf("email", stored, UserEmailKey, u)
  }

  /** The table invariant: every user has an email, and no two emails are equal ignoring case. */
  predicate ValidUsers(t: seq<User>)
  {
    (forall i :: 0 <= i < |t| ==> !Blank(t[i].email)) && UniqueBy(t, UserEmailKey)
  }

  /** Creating a user keeps the table valid exactly when the user has no validation errors. */
  lemma CreateUser(t: seq<User>, u: User)
    requires ValidUsers(t)
    ensures ValidUsers(t + [u]) <==> UserErrors(t, u) == []
  {
    UniqueAppend(t, UserEmailKey, u);
    assert (t + [u])[|t|] == u;
    assert forall i :: 0 <= i < |t| ==> (t + [u])[i] == t[i];
  }

  /** An email that differs from a stored one only in letter case is taken. */
  lemma UserEmailIgnoresCase(t: seq<User>, u: User, i: nat)
    requires i < |t| && u.email.Some? && t[i].email.Some?
    requires Downcase(u.email.value) == Downcase(t[i].email.value)
    ensures FieldError("email", AlreadyTaken) in UserErrors(t, u)
  {
    assert UserEmailKey(t[i]) == UserEmailKey(u);
  }

  // ---------------------------------------------------------------------------
  // admins

  /** where(is_admin: true) */
  function Admins(users: seq<User>): (r: seq<User>)
    ensures forall u :: u in r <==> u in users && IsAdmin(u)
    ensures |r| <= |users|
  {
    Filter(users, IsAdmin)
  }

  /** The admins of an admins list are that list. */
  lemma AdminsIdempotent(users: seq<User>)
    ensures Admins(Admins(users)) == Admins(users)
  {
    FilterIdempotent(users, IsAdmin);
  }

  /** One plain user and two admins: the scope returns the two admins, in order. */
  lemma AdminsScenario(u1: User, u2: User, u3: User)
    requires !u1.isAdmin && u2.isAdmin && u3.isAdmin
    ensures Admins([u1, u2, u3]) == [u2, u3]
  {
    var s := [u1, u2, u3];
    assert s[1..] == [u2, u3] && s[1..][1..] == [u3] && s[1..][1..][1..] == [];
    assert Filter([u3], IsAdmin) == [u3];
    assert Filter([u2, u3], IsAdmin) == [u2, u3];
  }

  // ---------------------------------------------------------------------------
  // search_query

  const UserSearchColumns: seq<string> := ["LOWER(users.email)"]

  /** The row passes the compiled where-clause; LOWER(NULL) LIKE p is never true. */
  predicate UserMatches(cond: SearchCondition, u: User)
  {
    BindsMatch(cond.binds, [Folded(u.email)])
  }

  /** search_query: a blank query applies no filter; otherwise the matching users, in order. */
  function SearchUsers(q: Option<string>, users: seq<User>): (r: seq<User>)
    ensures Blank(q) ==> r == users
    ensures forall u :: u in r ==> u in users
  {
    match Compile(q, UserSearchColumns)
    case None => users
    case Some(cond) => Filter(users, (u: User) => UserMatches(cond, u))
  }

  /** A user is found iff every term LIKE-matches their lowercased email. */
  lemma SearchUsersMeaning(q: string, users: seq<User>, u: User)
    requires !Blank(Some(q))
    ensures u in SearchUsers(Some(q), users) <==>
      u in users && u.email.Some?
      && forall k :: 0 <= k < |Terms(q)| ==> Like(Downcase(u.email.value), TermPattern(Terms(q)[k]))
  {
    var cond := Compile(Some(q), UserSearchColumns).value;
    assert SearchUsers(Some(q), users) == Filter(users, (v: User) => UserMatches(cond, v));
    var e := Folded(u.email);
    var terms := Terms(q);
    CompiledConditionMeaning(q, UserSearchColumns, [e]);
    assert BindsMatch(cond.binds, [e]) <==>
      forall k :: 0 <= k < |terms| ==> exists j :: 0 <= j < 1 && LikeValue([e][j], TermPattern(terms[k]));
    forall k | 0 <= k < |terms|
      ensures (exists j :: 0 <= j < 1 && LikeValue([e][j], TermPattern(terms[k]))) <==> LikeValue(e, TermPattern(terms[k]))
    {
      assert [e][0] == e;
    }
    if u.email.None? && terms != [] {
      assert !LikeValue(e, TermPattern(terms[0]));
    }
  }

  /** A single lowercase word finds the users whose lowercased email contains it. */
  lemma SingleWordMatchesUser(w: string, u: User)
    requires IsWord(w) && !Blank(Some(w)) && NoWildcards(w)
    requires forall i :: 0 <= i < |w| ==> LowerChar(w[i]) == w[i]
    requires u.email.Some?
    ensures UserMatches(Compile(Some(w), UserSearchColumns).value, u) <==> Contains(Downcase(u.email.value), w)
  {
    var e := Folded(u.email);
    SingleWordSearch(w, UserSearchColumns, [e]);
    assert [e][0] == e;
  }

  lemma UnicornsEmails()
    ensures Contains(Downcase("unicorns@gmail.com"), "unicorns")
    ensures !Contains(Downcase("oh_no@test.com"), "unicorns")
    ensures !Contains(Downcase("bye@test.com"), "unicorns")
  {
    var w, e1, e2, e3 := "unicorns", "unicorns@gmail.com", "oh_no@test.com", "bye@test.com";
    DowncaseNoCapitals(e1);
    DowncaseNoCapitals(e2);
    DowncaseNoCapitals(e3);
    assert w <= e1[0..];
    MissingCharNotContained(e2, w, 'u');
    MissingCharNotContained(e3, w, 'u');
  }

  /** Of three users, a one-word search that only the first one's email contains finds exactly that user. */
  lemma SearchOneOfThree(w: string, u1: User, u2: User, u3: User)
    requires IsWord(w) && !Blank(Some(w)) && NoWildcards(w)
    requires forall i :: 0 <= i < |w| ==> LowerChar(w[i]) == w[i]
    requires u1.email.Some? && u2.email.Some? && u3.email.Some?
    requires Contains(Downcase(u1.email.value), w)
    requires !Contains(Downcase(u2.email.value), w) && !Contains(Downcase(u3.email.value), w)
    ensures SearchUsers(Some(w), [u1, u2, u3]) == [u1]
  {
    var cond := Compile(Some(w), UserSearchColumns).value;
    SingleWordMatchesUser(w, u1);
    SingleWordMatchesUser(w, u2);
    SingleWordMatchesUser(w, u3);
    var keep := (u: User) => UserMatches(cond, u);
    var s := [u1, u2, u3];
    assert SearchUsers(Some(w), s) == Filter(s, keep);
    assert s[1..] == [u2, u3] && s[1..][1..] == [u3] && s[1..][1..][1..] == [];
    assert Filter([u3], keep) == [];
    assert Filter([u2, u3], keep) == [];
  }

  /** The 'unicorns' search finds only unicorns@gmail.com. */
  lemma UnicornsUserSearch(u1: User, u2: User, u3: User)
    requires u1.email == Some("unicorns@gmail.com")
    requires u2.email == Some("oh_no@test.com")
    requires u3.email == Some("bye@test.com")
    ensures SearchUsers(Some("unicorns"), [u1, u2, u3]) == [u1]
  {
    UnicornsIsAWord();
    UnicornsEmails();
    SearchOneOfThree("unicorns", u1, u2, u3);
  }
}
