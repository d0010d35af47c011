/** The School model: presence and case-insensitive uniqueness of name and short_name. */
module Schools {
  import opened Wrappers
  import opened RubyText
  import opened Validations

  datatype School = School(id: nat, name: Option<string>, shortName: Option<string>)

  function SchoolNameKey(s: School): Option<string> { Folded(s.name) }

  function SchoolShortNameKey(s: School): Option<string> { Folded(s.shortName) }

  /** The errors of saving s next to the stored schools, in the order the validations run. */
  function SchoolErrors(stored: seq<School>, s: School): (errs: seq<FieldError>)
    ensures errs == [] <==>
      !Blank(s.name) && !Taken(stored, SchoolNameKey, SchoolNameKey(s))
      && !Blank(s.shortName) && !Taken(stored, SchoolShortNameKey, SchoolShortNameKey(s))
  {
    PresenceOf("name", s.name)
    + UniquenessOf("name", stored, SchoolNameKey, s)
    + PresenceOf("short_name", s.shortName)
    + UniquenessOf("short_name", stored, SchoolShortNameKey, s)
  }

  /** The table invariant the validations keep: every school named, no two names or short names equal ignoring case. */
  predicate ValidSchools(t: seq<School>)
  {
    (forall i :: 0 <= i < |t| ==> !Blank(t[i].name) && !Blank(t[i].shortName))
    && UniqueBy(t, SchoolNameKey)
    && UniqueBy(t, SchoolShortNameKey)
  }

  /** Creating a school keeps the table valid exactly when the school has no validation errors. */
  lemma CreateSchool(t: seq<School>, s: School)
    requires ValidSchools(t)
    ensures ValidSchools(t + [s]) <==> SchoolErrors(t, s) == []
  {
    UniqueAppend(t, SchoolNameKey, s);
    UniqueAppend(t, SchoolShortNameKey, s);
    assert (t + [s])[|t|] == s;
    assert forall i :: 0 <= i < |t| ==> (t + [s])[i] == t[i];
  }

  /** A name that differs from a stored one only in letter case is taken. */
  lemma SchoolNameIgnoresCase(t: seq<School>, s: School, i: nat)
    requires i < |t| && s.name.Some? && t[i].name.Some?
    requires Downcase(s.name.value) == Downcase(t[i].name.value)
    ensures FieldError("name", AlreadyTaken) in SchoolErrors(t, s)
  {
    assert SchoolNameKey(t[i]) == SchoolNameKey(s);
  }

  /** Likewise for short_name. */
  lemma SchoolShortNameIgnoresCase(t: seq<School>, s: School, i: nat)
    requires i < |t| && s.shortName.Some? && t[i].shortName.Some?
    requires Downcase(s.shortName.value) == Downcase(t[i].shortName.value)
    ensures FieldError("short_name", AlreadyTaken) in SchoolErrors(t, s)
  {
    assert SchoolShortNameKey(t[i]) == SchoolShortNameKey(s);
  }
}
