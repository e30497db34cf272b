/**
 * The `users` table as the service sees it through its database session.
 * The ORM model file that declares the columns is not part of this model;
 * the columns are the ones `UserService.create_user` fills in and `UserInDB`
 * lists, and the unique indexes on `username` and `email` are the ones whose
 * violation the service catches as an integrity error.  Timestamps are left
 * out.
 */
module Models {
  import opened Wrappers

  /** One row of the table (the shape `UserInDB` describes). */
  datatype User = User(
    id: int,
    username: string,
    email: string,
    fullName: Option<string>,
    bio: Option<string>,
    hashedPassword: string,
    isActive: bool,
    isAdmin: bool)

  /** The equality filter of a lookup query. */
  datatype Key = ById(id: int) | ByUsername(username: string) | ByEmail(email: string)

  predicate Matches(u: User, key: Key)
  {
    match key
    case ById(id) => u.id == id
    case ByUsername(name) => u.username == name
    case ByEmail(email) => u.email == email
  }

  /** An equality-filtered query that takes the first result: the position of the first matching row. */
  function Find(rows: seq<User>, key: Key): (r: Option<nat>)
    ensures r.Some? ==> r.value < |rows| && Matches(rows[r.value], key)
    ensures r.Some? ==> forall k :: 0 <= k < r.value ==> !Matches(rows[k], key)
    ensures r.None? <==> forall k :: 0 <= k < |rows| ==> !Matches(rows[k], key)
  {
    if |rows| == 0 then None
    else if Matches(rows[0], key) then Some(0)
    else match Find(rows[1..], key)
      case None => None
      case Some(i) => Some(i + 1)
  }

  /** The first matching row itself, or None. */
  function Lookup(rows: seq<User>, key: Key): (r: Option<User>)
    ensures r.Some? ==> r.value in rows && Matches(r.value, key)
    ensures r.None? <==> forall u :: u in rows ==> !Matches(u, key)
  {
    match Find(rows, key)
    case None => None
    case Some(i) => Some(rows[i])
  }

  /** No two rows share an id, a username or an email. */
  ghost predicate Unique(rows: seq<User>)
  {
    forall i, j :: 0 <= i < j < |rows| ==>
      rows[i].id != rows[j].id && rows[i].username != rows[j].username && rows[i].email != rows[j].email
  }

  /**
   * Whether `u` may be committed at position `i` (or appended, when `i` is
   * `|rows|`) without breaking a unique index: no OTHER row has its id,
   * username or email.
   */
  predicate FitsAt(rows: seq<User>, i: nat, u: User)
  {
    forall k :: 0 <= k < |rows| && k != i ==>
      rows[k].id != u.id && rows[k].username != u.username && rows[k].email != u.email
  }

  /** In a table whose rows are unique, a key matches at most one row. */
  lemma UniqueMatch(rows: seq<User>, key: Key, i: nat, j: nat)
    requires Unique(rows)
    requires i < |rows| && j < |rows|
    requires Matches(rows[i], key) && Matches(rows[j], key)
    ensures i == j
  {
  }

  /**
   * The table reached through the session: its rows in storage order and the
   * auto-increment counter that assigns ids.
   */
  class UserTable {
    var rows: seq<User>
    var nextId: int

    /** Ids are positive, never reach the counter, and every unique index holds. */
    ghost predicate Valid()
      reads this
    {
      && nextId >= 1
      && (forall k :: 0 <= k < |rows| ==> 1 <= rows[k].id < nextId)
      && Unique(rows)
    }

    /** A freshly created, empty table whose counter starts at 1. */
    constructor ()
      ensures Valid() && rows == [] && nextId == 1
    {
      rows := [];
      nextId := 1;
    }
  }
}
