/**
 * `UserService`: the user lifecycle over the table.  Each write commits as a
 * whole or, on an integrity error (a unique index would break) or any other
 * storage failure, rolls back and leaves the table as it was.  A storage
 * failure other than an integrity error cannot be derived from the table,
 * so it is the input `storageFails`.
 */
module UserService {
  import opened Wrappers
  import opened Models
  import opened Passwords
  import opened Schemas

  /** The row `create_user` builds before the id is assigned. */
  function NewRow(id: int, data: UserCreate, hashed: string): User
  {
    User(id, data.username, data.email, data.fullName, data.bio, hashed, data.isActive, data.isAdmin)
  }

  /**
   * `create_user`: hashes the password, inserts the row with the next id and
   * commits; None if the username or the e-mail is taken or storage fails.
   */
  method CreateUser(db: UserTable, pwd: PasswordHasher, data: UserCreate, storageFails: bool)
    returns (r: Option<User>)
    requires db.Valid()
    modifies db
    ensures db.Valid()
    ensures r.Some? <==>
      && !storageFails
      && Find(old(db.rows), ByUsername(data.username)).None?
      && Find(old(db.rows), ByEmail(data.email)).None?
    ensures r.Some? ==>
      && r.value.id == old(db.nextId)
      && r.value.username == data.username && r.value.email == data.email
      && r.value.fullName == data.fullName && r.value.bio == data.bio
      && r.value.isActive == data.isActive && r.value.isAdmin == data.isAdmin
      && r.value.hashedPassword == HashPassword(pwd, data.password)
    ensures r.Some? ==> db.rows == old(db.rows) + [r.value] && db.nextId == old(db.nextId) + 1
    ensures r.None? ==> db.rows == old(db.rows) && db.nextId == old(db.nextId)
    ensures r.Some? && Sound(pwd) ==> AuthenticateUser(db, pwd, data.username, data.password) == r
    ensures r.Some? && Exact(pwd) ==> forall other ::
      other != data.password ==> AuthenticateUser(db, pwd, data.username, other).None?
  {
    var hashed := HashPassword(pwd, data.password);
    var row := NewRow(db.nextId, data, hashed);
    if storageFails || !FitsAt(db.rows, |db.rows|, row) {
      // rollback
      return None;
    }
    db.rows := db.rows + [row];
    db.nextId := db.nextId + 1;
    r := Some(row);
    StoredUserLogsIn(db, pwd, row, data.password);
  }

  /** Committing a row that fits at position `i` keeps every unique index. */
  lemma ReplaceKeepsUnique(rows: seq<User>, i: nat, u: User)
    requires Unique(rows) && i < |rows| && FitsAt(rows, i, u)
    ensures Unique(rows[i := u])
  {
  }

  /** An update that supplies no field leaves the row as it is. */
  lemma NoChangesKeepsRow(u: User, pwd: PasswordHasher)
    ensures Patched(u, NoChanges, pwd) == u
  {
  }

  /** `get_user_by_id`. */
  function GetUserById(db: UserTable, userId: int): (r: Option<User>)
    reads db
    ensures r.Some? ==> r.value in db.rows && r.value.id == userId
    ensures r.None? <==> forall u :: u in db.rows ==> u.id != userId
  {
    Lookup(db.rows, ById(userId))
  }

  /** `get_user_by_username`. */
  function GetUserByUsername(db: UserTable, username: string): (r: Option<User>)
    reads db
    ensures r.Some? ==> r.value in db.rows && r.value.username == username
    ensures r.None? <==> forall u :: u in db.rows ==> u.username != username
  {
    Lookup(db.rows, ByUsername(username))
  }

  /** `get_user_by_email`. */
  function GetUserByEmail(db: UserTable, email: string): (r: Option<User>)
    reads db
    ensures r.Some? ==> r.value in db.rows && r.value.email == email
    ensures r.None? <==> forall u :: u in db.rows ==> u.email != email
  {
    Lookup(db.rows, ByEmail(email))
  }

  /** `get_users`: the rows in storage order, `skip` dropped, at most `limit` kept. */
  function GetUsers(db: UserTable, skip: nat, limit: nat): (r: seq<User>)
    reads db
    ensures |r| <= limit
    ensures forall k :: 0 <= k < |r| ==> skip + k < |db.rows| && r[k] == db.rows[skip + k]
    ensures |r| == if skip >= |db.rows| then 0 else if |db.rows| - skip < limit then |db.rows| - skip else limit
  {
    if skip >= |db.rows| then []
    else if skip + limit <= |db.rows| then db.rows[skip..skip + limit]
    else db.rows[skip..]
  }

  /** The keys of the dictionary `update_user` builds: the request's field names. */
  datatype Column = Username | Email | FullName | Bio | IsActive | IsAdmin | Password | HashedPassword

  /**
   * One entry of that dictionary: a column and its new value.  `SetPassword`
   * is the request's plaintext field, which the service replaces by a
   * `SetHashedPassword` before anything is written.
   */
  datatype Assignment =
    | SetUsername(username: string)
    | SetEmail(email: string)
    | SetFullName(fullName: Option<string>)
    | SetBio(bio: Option<string>)
    | SetIsActive(isActive: bool)
    | SetIsAdmin(isAdmin: bool)
    | SetPassword(password: string)
    | SetHashedPassword(hashedPassword: string)

  function ColumnOf(a: Assignment): Column
  {
    match a
    case SetUsername(_) => Username
    case SetEmail(_) => Email
    case SetFullName(_) => FullName
    case SetBio(_) => Bio
    case SetIsActive(_) => IsActive
    case SetIsAdmin(_) => IsAdmin
    case SetPassword(_) => Password
    case SetHashedPassword(_) => HashedPassword
  }

  /** Every entry sits under its own column's key. */
  ghost predicate WellKeyed(m: map<Column, Assignment>)
  {
    forall c :: c in m ==> ColumnOf(m[c]) == c
  }

  /** The fields of the update schema, in declaration order. */
  const UpdateColumns: seq<Column> := [Username, Email, FullName, Bio, IsActive, IsAdmin, Password]

  /** Whether the request supplied the field behind column `c`. */
  predicate Supplied(data: UserUpdate, c: Column)
  {
    match c
    case Username => data.username.Some?
    case Email => data.email.Some?
    case FullName => data.fullName.Some?
    case Bio => data.bio.Some?
    case IsActive => data.isActive.Some?
    case IsAdmin => data.isAdmin.Some?
    case Password => data.password.Some?
    case HashedPassword => false
  }

  /** The entry of a supplied field. */
  function EntryFor(data: UserUpdate, c: Column): (a: Assignment)
    requires Supplied(data, c)
    ensures ColumnOf(a) == c
  {
    match c
    case Username => SetUsername(data.username.value)
    case Email => SetEmail(data.email.value)
    case FullName => SetFullName(data.fullName.value)
    case Bio => SetBio(data.bio.value)
    case IsActive => SetIsActive(data.isActive.value)
    case IsAdmin => SetIsAdmin(data.isAdmin.value)
    case Password => SetPassword(data.password.value)
  }

  /** The dictionary of the fields the request set (`exclude_unset`): one entry per supplied field and no other. */
  function SetFields(data: UserUpdate): (m: map<Column, Assignment>)
    ensures WellKeyed(m)
    ensures forall c :: c in m <==> Supplied(data, c)
    ensures forall c :: c in m ==> m[c] == EntryFor(data, c)
  {
    map c | c in UpdateColumns && Supplied(data, c) :: EntryFor(data, c)
  }

  /** `setattr` of one entry on a row; `password` is not a column of the row. */
  function Apply(u: User, a: Assignment): User
  {
    match a
    case SetUsername(x) => u.(username := x)
    case SetEmail(x) => u.(email := x)
    case SetFullName(x) => u.(fullName := x)
    case SetBio(x) => u.(bio := x)
    case SetIsActive(x) => u.(isActive := x)
    case SetIsAdmin(x) => u.(isAdmin := x)
    case SetPassword(_) => u
    case SetHashedPassword(x) => u.(hashedPassword := x)
  }

  /**
   * The row once every entry of `m` has been written into it, whatever the
   * order: a column with an entry takes the entry's value, every other
   * column (and the id) keeps its value.
   */
  function Overlay(u: User, m: map<Column, Assignment>): User
  {
    u.(username := if Username in m && m[Username].SetUsername? then m[Username].username else u.username,
       email := if Email in m && m[Email].SetEmail? then m[Email].email else u.email,
       fullName := if FullName in m && m[FullName].SetFullName? then m[FullName].fullName else u.fullName,
       bio := if Bio in m && m[Bio].SetBio? then m[Bio].bio else u.bio,
       hashedPassword := if HashedPassword in m && m[HashedPassword].SetHashedPassword? then m[HashedPassword].hashedPassword else u.hashedPassword,
       isActive := if IsActive in m && m[IsActive].SetIsActive? then m[IsActive].isActive else u.isActive,
       isAdmin := if IsAdmin in m && m[IsAdmin].SetIsAdmin? then m[IsAdmin].isAdmin else u.isAdmin)
  }

  /** Writing one more entry of a well-keyed dictionary extends the overlay by that entry. */
  lemma OverlayStep(u: User, done: map<Column, Assignment>, c: Column, a: Assignment)
    requires ColumnOf(a) == c && c !in done
    ensures Overlay(u, done[c := a]) == Apply(Overlay(u, done), a)
  {
  }

  /**
   * Reference meaning of a partial update: each field takes the supplied value
   * when it is supplied and keeps the stored one otherwise; a supplied
   * password replaces the hash by the hash of the new password; the id never
   * changes.
   */
  function Patched(u: User, data: UserUpdate, pwd: PasswordHasher): User
  {
    User(
      u.id,
      data.username.GetOr(u.username),
      data.email.GetOr(u.email),
      data.fullName.GetOr(u.fullName),
      data.bio.GetOr(u.bio),
      if data.password.Some? then HashPassword(pwd, data.password.value) else u.hashedPassword,
      data.isActive.GetOr(u.isActive),
      data.isAdmin.GetOr(u.isAdmin))
  }

  /**
   * `update_data` after the password step: the plaintext entry popped and a
   * `hashed_password` entry holding its hash inserted.
   */
  function UpdateData(data: UserUpdate, pwd: PasswordHasher): (m: map<Column, Assignment>)
    ensures WellKeyed(m)
    ensures Password !in m
    ensures HashedPassword in m <==> data.password.Some?
    ensures data.password.Some? ==> m[HashedPassword] == SetHashedPassword(HashPassword(pwd, data.password.value))
    ensures forall c :: c != Password && c != HashedPassword ==> (c in m <==> Supplied(data, c))
    ensures forall c :: c != Password && c != HashedPassword && c in m ==> m[c] == EntryFor(data, c)
  {
    var fields := SetFields(data);
    if Password in fields then
      (fields - {Password})[HashedPassword := SetHashedPassword(HashPassword(pwd, data.password.value))]
    else fields
  }

  /**
   * Writing `update_data` into a row gives exactly the reference patch: the
   * supplied fields are set, the rest keep their values, and the hash of a
   * supplied password, never the password, is written.
   */
  lemma UpdateDataMeansPatched(u: User, data: UserUpdate, pwd: PasswordHasher)
    ensures Overlay(u, UpdateData(data, pwd)) == Patched(u, data, pwd)
  {
  }

  /**
   * The loop of `update_user` that writes each entry of `update_data` into
   * the row with `setattr`.  Dictionary keys are distinct, so the order in
   * which the entries are visited does not matter; this loop takes them in
   * any order.
   */
  method WriteFields(original: User, updateData: map<Column, Assignment>) returns (row: User)
    requires WellKeyed(updateData)
    ensures row == Overlay(original, updateData)
  {
    row := original;
    var remaining := updateData.Keys;
    ghost var done: map<Column, Assignment> := map[];
    while remaining != {}
      invariant remaining <= updateData.Keys
      invariant done.Keys == updateData.Keys - remaining
      invariant forall c :: c in done ==> done[c] == updateData[c]
      invariant row == Overlay(original, done)
      decreases remaining
    {
      var column :| column in remaining;
      OverlayStep(original, done, column, updateData[column]);
      row := Apply(row, updateData[column]);
      done := done[column := updateData[column]];
      remaining := remaining - {column};
    }
    assert done == updateData;
  }

  /**
   * `update_user`: None if there is no row with the id.  Otherwise the
   * supplied fields are written into that row, the password as its hash, and
   * the change is committed; an integrity error (the new username or e-mail
   * belongs to another row) or a storage failure rolls back and gives None.
   */
  method UpdateUser(db: UserTable, pwd: PasswordHasher, userId: int, data: UserUpdate, storageFails: bool)
    returns (r: Option<User>)
    requires db.Valid()
    modifies db
    ensures db.Valid() && db.nextId == old(db.nextId)
    ensures Find(old(db.rows), ById(userId)).None? ==> r.None? && db.rows == old(db.rows)
    ensures Find(old(db.rows), ById(userId)).Some? ==>
      var i := Find(old(db.rows), ById(userId)).value;
      var patched := Patched(old(db.rows)[i], data, pwd);
      && (r.Some? <==> !storageFails && FitsAt(old(db.rows), i, patched))
      && (r.Some? ==> r.value == patched && db.rows == old(db.rows)[i := patched])
      && (r.None? ==> db.rows == old(db.rows))
  {
    var found := Find(db.rows, ById(userId));
    if found.None? {
      return None;
    }
    var i := found.value;
    var original := db.rows[i];

    var updateData := SetFields(data);
    if Password in updateData {
      var plain := updateData[Password].password;
      updateData := updateData - {Password};
      updateData := updateData[HashedPassword := SetHashedPassword(HashPassword(pwd, plain))];
    }
    assert updateData == UpdateData(data, pwd);

    var row := WriteFields(original, updateData);
    UpdateDataMeansPatched(original, data, pwd);

    if storageFails || !FitsAt(db.rows, i, row) {
      // rollback
      return None;
    }
    ReplaceKeepsUnique(db.rows, i, row);
    db.rows := db.rows[i := row];
    r := Some(row);
  }

  /**
   * `delete_user`: false if there is no row with the id or storage fails
   * (the delete is rolled back); otherwise exactly that row is removed.
   */
  method DeleteUser(db: UserTable, userId: int, storageFails: bool) returns (ok: bool)
    requires db.Valid()
    modifies db
    ensures db.Valid() && db.nextId == old(db.nextId)
    ensures ok <==> Find(old(db.rows), ById(userId)).Some? && !storageFails
    ensures ok ==>
      var i := Find(old(db.rows), ById(userId)).value;
      db.rows == old(db.rows)[..i] + old(db.rows)[i + 1..]
    ensures !ok ==> db.rows == old(db.rows)
    ensures ok ==> Find(db.rows, ById(userId)).None?
  {
    var found := Find(db.rows, ById(userId));
    if found.None? {
      return false;
    }
    if storageFails {
      // rollback
      return false;
    }
    var i := found.value;
    ghost var before := db.rows;
    db.rows := db.rows[..i] + db.rows[i + 1..];
    forall k | 0 <= k < |db.rows|
      ensures db.rows[k] == if k < i then before[k] else before[k + 1]
    {
    }
    ok := true;
  }

  /**
   * `authenticate_user`: the row with that username when the password
   * verifies against its stored hash, None otherwise; whether the account is
   * active plays no part.
   */
  function AuthenticateUser(db: UserTable, pwd: PasswordHasher, username: string, password: string): (r: Option<User>)
    reads db
    ensures r.Some? <==>
      && Lookup(db.rows, ByUsername(username)).Some?
      && VerifyPassword(pwd, password, Lookup(db.rows, ByUsername(username)).value.hashedPassword)
    ensures r.Some? ==> r == Lookup(db.rows, ByUsername(username))
  {
    var user := GetUserByUsername(db, username);
    if user.None? then None
    else if !VerifyPassword(pwd, password, user.value.hashedPassword) then None
    else user
  }

  /**
   * A stored user logs in with the password whose hash is stored for them,
   * given the hashing library's round-trip law: the username index makes the
   * lookup find that very row, and the digest verifies its own password.
   */
  lemma StoredPasswordAuthenticates(db: UserTable, pwd: PasswordHasher, u: User, password: string)
    requires db.Valid() && Sound(pwd)
    requires u in db.rows && u.hashedPassword == HashPassword(pwd, password)
    ensures AuthenticateUser(db, pwd, u.username, password) == Some(u)
  {
    var key := ByUsername(u.username);
    var j :| 0 <= j < |db.rows| && db.rows[j] == u;
    var i := Find(db.rows, key).value;
    UniqueMatch(db.rows, key, i, j);
    HashThenVerify(pwd, password);
  }

  /**
   * What a stored row means for logging in: under the round-trip law its own
   * password authenticates it, and under the exact law no other one does.
   */
  lemma StoredUserLogsIn(db: UserTable, pwd: PasswordHasher, u: User, password: string)
    requires db.Valid() && |db.rows| > 0 && db.rows[|db.rows| - 1] == u
    requires u.hashedPassword == HashPassword(pwd, password)
    ensures Sound(pwd) ==> AuthenticateUser(db, pwd, u.username, password) == Some(u)
    ensures Exact(pwd) ==> forall other ::
      other != password ==> AuthenticateUser(db, pwd, u.username, other).None?
  {
    if Sound(pwd) {
      StoredPasswordAuthenticates(db, pwd, u, password);
    }
    if Exact(pwd) {
      forall other | other != password
        ensures AuthenticateUser(db, pwd, u.username, other).None?
      {
        StoredUserRejectsOtherPassword(db, pwd, u, password, other);
      }
    }
  }

  /**
   * Under a hash that accepts only its own password, a user never logs in
   * with any other password.
   */
  lemma StoredUserRejectsOtherPassword(db: UserTable, pwd: PasswordHasher, u: User, password: string, other: string)
    requires db.Valid() && Exact(pwd)
    requires u in db.rows && u.hashedPassword == HashPassword(pwd, password)
    requires other != password
    ensures AuthenticateUser(db, pwd, u.username, other).None?
  {
    var key := ByUsername(u.username);
    var j :| 0 <= j < |db.rows| && db.rows[j] == u;
    var i := Find(db.rows, key).value;
    UniqueMatch(db.rows, key, i, j);
    WrongPasswordRefused(pwd, password, other);
  }
}
