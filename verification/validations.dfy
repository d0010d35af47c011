/**
 * The ActiveRecord validations the models declare, as functions from a record
 * (and the rows already stored) to the list of errors they add, and the table
 * invariant that uniqueness validations keep.
 */
module Validations {
  import opened Wrappers
  import opened RubyText
  import opened Seqs

  /** The error kinds the validations add, with Rails' default messages in mind. */
  datatype ErrorKind =
    | CantBeBlank                 // "can't be blank"
    | AlreadyTaken                // "has already been taken"
    | NotANumber                  // "is not a number"
    | NotInRange(lo: int, hi: int) // "must be in lo..hi"
    | MustExist                   // belongs_to: "must exist"

  datatype FieldError = FieldError(attribute: string, kind: ErrorKind)

  /** presence: true on a string column: nil, empty and white space only are blank. */
  function PresenceOf(attribute: string, v: Option<string>): (errs: seq<FieldError>)
    ensures errs == [] <==> !Blank(v)
    ensures errs != [] ==> errs == [FieldError(attribute, CantBeBlank)]
  {
    if Blank(v) then [FieldError(attribute, CantBeBlank)] else []
  }

  /** presence: true on a numeric column: only nil is blank. */
  function PresenceOfValue<T>(attribute: string, v: Option<T>): (errs: seq<FieldError>)
    ensures errs == [] <==> v.Some?
  {
    if v.None? then [FieldError(attribute, CantBeBlank)] else []
  }

  /** numericality: { in: lo..hi }: nil is not a number; a number must lie in the closed range. */
  function NumericalityIn(attribute: string, v: Option<int>, lo: int, hi: int): (errs: seq<FieldError>)
    ensures errs == [] <==> v.Some? && lo <= v.value <= hi
    ensures |errs| <= 1
  {
    match v
    case None => [FieldError(attribute, NotANumber)]
    case Some(x) => if lo <= x <= hi then [] else [FieldError(attribute, NotInRange(lo, hi))]
  }

  /** belongs_to: the referenced parent row must exist. */
  function ParentExists(attribute: string, id: Option<nat>, parents: set<nat>): (errs: seq<FieldError>)
    ensures errs == [] <==> id.Some? && id.value in parents
  {
    if id.Some? && id.value in parents then [] else [FieldError(attribute, MustExist)]
  }

  // ---------------------------------------------------------------------------
  // Uniqueness

  /** case_sensitive: false compares LOWER(column); NULL stays NULL. */
  function Folded(v: Option<string>): (r: Option<string>)
    ensures r.None? <==> v.None?
    ensures r.Some? ==> |r.value| == |v.value|
  {
    match v
    case None => None
    case Some(s) => Some(Downcase(s))
  }

  /** Folding twice is folding once. */
  lemma FoldedIdempotent(v: Option<string>)
    ensures Folded(Folded(v)) == Folded(v)
  {
    if v.Some? {
      DowncaseIdempotent(v.value);
    }
  }

  /** Some stored row already has key k. */
  predicate Taken<R, K(==)>(rows: seq<R>, key: R -> K, k: K)
  {
    exists i :: 0 <= i < |rows| && key(rows[i]) == k
  }

  /** uniqueness: the error a record gets when a stored row has its key. */
  function UniquenessOf<R, K(==)>(attribute: string, rows: seq<R>, key: R -> K, r: R): (errs: seq<FieldError>)
    ensures errs == [] <==> !Taken(rows, key, key(r))
  {
    if Taken(rows, key, key(r)) then [FieldError(attribute, AlreadyTaken)] else []
  }

  /** No two rows of the table share a key: what the uniqueness validation maintains. */
  predicate UniqueBy<R, K(==)>(rows: seq<R>, key: R -> K)
  {
    forall i, j :: 0 <= i < j < |rows| ==> key(rows[i]) != key(rows[j])
  }

  /** Appending a row keeps the keys distinct exactly when the validation lets it through. */
  lemma UniqueAppend<R, K>(rows: seq<R>, key: R -> K, r: R)
    ensures UniqueBy(rows + [r], key) <==> UniqueBy(rows, key) && !Taken(rows, key, key(r))
  {
    var t := rows + [r];
    assert forall i :: 0 <= i < |rows| ==> t[i] == rows[i];
    assert t[|rows|] == r;
  }

  /** A key held by a filtered row is held by a row of the whole table. */
  lemma {:induction false} TakenFilter<R(!new), K>(rows: seq<R>, keep: R -> bool, key: R -> K, k: K)
    requires Taken(Filter(rows, keep), key, k)
    ensures Taken(rows, key, k)
  {
    var f := Filter(rows, keep);
    var i :| 0 <= i < |f| && key(f[i]) == k;
    assert f[i] in f;
    var j :| 0 <= j < |rows| && rows[j] == f[i];
  }

  /** Deleting rows (keeping those keep accepts) never breaks uniqueness. */
  lemma {:induction false} UniqueFilter<R(!new), K>(rows: seq<R>, keep: R -> bool, key: R -> K)
    requires UniqueBy(rows, key)
    ensures UniqueBy(Filter(rows, keep), key)
    decreases |rows|
  {
    if rows != [] {
      var rest := rows[1..];
      assert UniqueBy(rest, key) by {
        forall i, j | 0 <= i < j < |rest| ensures key(rest[i]) != key(rest[j]) {
          assert rest[i] == rows[i + 1] && rest[j] == rows[j + 1];
        }
      }
      UniqueFilter(rest, keep, key);
      if keep(rows[0]) {
        var f := Filter(rest, keep);
        assert Filter(rows, keep) == [rows[0]] + f;
        if Taken(f, key, key(rows[0])) {
          TakenFilter(rest, keep, key, key(rows[0]));
          assert false;
        }
        UniqueAppendFront(f, key, rows[0]);
      } else {
        assert Filter(rows, keep) == Filter(rest, keep);
      }
    }
  }

  /** Prepending a row whose key is free keeps the keys distinct. */
  lemma UniqueAppendFront<R, K>(rows: seq<R>, key: R -> K, r: R)
    requires UniqueBy(rows, key) && !Taken(rows, key, key(r))
    ensures UniqueBy([r] + rows, key)
  {
    var t := [r] + rows;
    forall i, j | 0 <= i < j < |t| ensures key(t[i]) != key(t[j]) {
      assert t[j] == rows[j - 1];
      if i > 0 {
        assert t[i] == rows[i - 1];
      }
    }
  }
}
