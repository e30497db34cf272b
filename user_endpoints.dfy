/**
 * The HTTP handlers of the `/users` routes: duplicate and existence checks
 * in a fixed order, then the service call, each outcome mapped to a status
 * code.  A request body or query that fails schema validation never reaches
 * a handler: the web framework answers it with 422, which is modelled here
 * as the first step of each handler.
 */
module UserEndpoints {
  import opened Wrappers
  import opened Models
  import opened Passwords
  import opened Schemas
  import UserService

  const StatusOk := 200
  const StatusCreated := 201
  const StatusNoContent := 204
  const StatusBadRequest := 400
  const StatusUnauthorized := 401
  const StatusNotFound := 404
  const StatusUnprocessable := 422

  const UsernameRegistered := "Username already registered"
  const EmailRegistered := "Email already registered"
  const CreateFailed := "Failed to create user"
  const UserNotFound := "User not found"
  const UsernameTaken := "Username already taken"
  const EmailTaken := "Email already taken"
  const UpdateFailed := "Failed to update user"
  const DeleteFailed := "Failed to delete user"
  const InvalidCredentials := "Invalid username or password"
  const AccountDisabled := "User account is disabled"
  const ValidationFailed := "Request validation failed"

  /** A response: a success status with its body, or an error status with its detail. */
  datatype Reply<T> = Ok(status: int, body: T) | Fail(status: int, detail: string)

  /** Python truthiness of an optional string: supplied and not empty. */
  predicate Truthy(s: Option<string>)
  {
    s.Some? && s.value != ""
  }

  /**
   * POST `/users/`: 422 for an invalid body; 400 when the username is
   * registered (checked first), then when the e-mail is registered, then when
   * the service fails; otherwise 201 with the new user.
   */
  method CreateUser(db: UserTable, pwd: PasswordHasher, body: CreateBody, storageFails: bool)
    returns (reply: Reply<UserResponse>)
    requires db.Valid()
    modifies db
    ensures db.Valid()
    ensures ParseUserCreate(body).None? ==> reply == Fail(StatusUnprocessable, ValidationFailed)
    ensures ParseUserCreate(body).Some? ==>
      var data := ParseUserCreate(body).value;
      var nameTaken := Find(old(db.rows), ByUsername(data.username)).Some?;
      var emailTaken := Find(old(db.rows), ByEmail(data.email)).Some?;
      && (nameTaken ==> reply == Fail(StatusBadRequest, UsernameRegistered))
      && (!nameTaken && emailTaken ==> reply == Fail(StatusBadRequest, EmailRegistered))
      && (!nameTaken && !emailTaken && storageFails ==> reply == Fail(StatusBadRequest, CreateFailed))
      && (!nameTaken && !emailTaken && !storageFails ==>
            var row := UserService.NewRow(old(db.nextId), data, HashPassword(pwd, data.password));
            reply == Ok(StatusCreated, ToResponse(row)) && db.rows == old(db.rows) + [row])
    ensures reply.Fail? ==> db.rows == old(db.rows)
    ensures db.nextId == old(db.nextId) + (if reply.Ok? then 1 else 0)
    ensures reply.Ok? && Sound(pwd) ==>
      var login := Login(db, pwd, UserLogin(body.username, body.password));
      if ParseUserCreate(body).value.isActive
      then login == Ok(StatusOk, reply.body)
      else login == Fail(StatusBadRequest, AccountDisabled)
  {
    var parsed := ParseUserCreate(body);
    if parsed.None? {
      return Fail(StatusUnprocessable, ValidationFailed);
    }
    var data := parsed.value;
    var existingUser := UserService.GetUserByUsername(db, data.username);
    if existingUser.Some? {
      return Fail(StatusBadRequest, UsernameRegistered);
    }
    var existingEmail := UserService.GetUserByEmail(db, data.email);
    if existingEmail.Some? {
      return Fail(StatusBadRequest, EmailRegistered);
    }
    var user := UserService.CreateUser(db, pwd, data, storageFails);
    if user.None? {
      return Fail(StatusBadRequest, CreateFailed);
    }
    reply := Ok(StatusCreated, ToResponse(user.value));
  }

  /**
   * GET `/users/`: 422 unless `skip >= 0` and `1 <= limit <= 100` (absent
   * parameters default to 0 and 100); otherwise 200 with the window of users.
   */
  function ListUsers(db: UserTable, skip: Option<int>, limit: Option<int>): (r: Reply<seq<UserResponse>>)
    reads db
    ensures r.Ok? <==> 0 <= skip.GetOr(0) && 1 <= limit.GetOr(100) <= 100
    ensures r.Fail? ==> r == Fail(StatusUnprocessable, ValidationFailed)
    ensures r.Ok? ==> r.status == StatusOk && |r.body| <= limit.GetOr(100) <= 100
    ensures r.Ok? ==> |r.body| == |UserService.GetUsers(db, skip.GetOr(0), limit.GetOr(100))|
    ensures r.Ok? ==> forall k :: 0 <= k < |r.body| ==>
      skip.GetOr(0) + k < |db.rows| && r.body[k] == ToResponse(db.rows[skip.GetOr(0) + k])
  {
    var s := skip.GetOr(0);
    var n := limit.GetOr(100);
    if s < 0 || n < 1 || n > 100 then Fail(StatusUnprocessable, ValidationFailed)
    else
      var users := UserService.GetUsers(db, s, n);
      Ok(StatusOk, seq(|users|, k requires 0 <= k < |users| => ToResponse(users[k])))
  }

  /** GET `/users/{user_id}`: 404 exactly when no row has the id, else 200 with it. */
  function GetUser(db: UserTable, userId: int): (r: Reply<UserResponse>)
    reads db
    ensures r.Fail? <==> forall u :: u in db.rows ==> u.id != userId
    ensures r.Fail? ==> r == Fail(StatusNotFound, UserNotFound)
    ensures r.Ok? ==> r.status == StatusOk && exists u :: u in db.rows && u.id == userId && r.body == ToResponse(u)
  {
    var user := UserService.GetUserById(db, userId);
    if user.None? then Fail(StatusNotFound, UserNotFound) else Ok(StatusOk, ToResponse(user.value))
  }

  /** GET `/users/username/{username}`: 404 exactly when no row has the name, else 200 with it. */
  function GetUserByUsername(db: UserTable, username: string): (r: Reply<UserResponse>)
    reads db
    ensures r.Fail? <==> forall u :: u in db.rows ==> u.username != username
    ensures r.Fail? ==> r == Fail(StatusNotFound, UserNotFound)
    ensures r.Ok? ==> r.status == StatusOk && exists u :: u in db.rows && u.username == username && r.body == ToResponse(u)
  {
    var user := UserService.GetUserByUsername(db, username);
    if user.None? then Fail(StatusNotFound, UserNotFound) else Ok(StatusOk, ToResponse(user.value))
  }

  /** The pre-check of a username change: supplied, different, and already in use. */
  predicate UsernameClash(rows: seq<User>, current: User, data: UserUpdate)
  {
    Truthy(data.username) && data.username.value != current.username
      && Lookup(rows, ByUsername(data.username.value)).Some?
  }

  /** The pre-check of an e-mail change: supplied, different, and already in use. */
  predicate EmailClash(rows: seq<User>, current: User, data: UserUpdate)
  {
    Truthy(data.email) && data.email.value != current.email
      && Lookup(rows, ByEmail(data.email.value)).Some?
  }

  /**
   * PUT `/users/{user_id}`: 422 for an invalid body; 404 when the id is
   * absent; 400 on a username clash (checked first), then on an e-mail clash,
   * then when the service fails; otherwise 200 with the patched user.  Every
   * error leaves the table as it was.
   */
  method UpdateUser(db: UserTable, pwd: PasswordHasher, userId: int, data: UserUpdate, storageFails: bool)
    returns (reply: Reply<UserResponse>)
    requires db.Valid()
    modifies db
    ensures db.Valid() && db.nextId == old(db.nextId)
    ensures reply.Fail? ==> db.rows == old(db.rows)
    ensures !ValidUserUpdate(data) ==> reply == Fail(StatusUnprocessable, ValidationFailed)
    ensures ValidUserUpdate(data) && Find(old(db.rows), ById(userId)).None? ==>
      reply == Fail(StatusNotFound, UserNotFound)
    ensures ValidUserUpdate(data) && Find(old(db.rows), ById(userId)).Some? ==>
      var i := Find(old(db.rows), ById(userId)).value;
      var current := old(db.rows)[i];
      var patched := UserService.Patched(current, data, pwd);
      var nameClash := UsernameClash(old(db.rows), current, data);
      var emailClash := EmailClash(old(db.rows), current, data);
      && (nameClash ==> reply == Fail(StatusBadRequest, UsernameTaken))
      && (!nameClash && emailClash ==> reply == Fail(StatusBadRequest, EmailTaken))
      && (!nameClash && !emailClash ==>
            if !storageFails && FitsAt(old(db.rows), i, patched)
            then reply == Ok(StatusOk, ToResponse(patched)) && db.rows == old(db.rows)[i := patched]
            else reply == Fail(StatusBadRequest, UpdateFailed))
    ensures ValidUserUpdate(data) && Find(old(db.rows), ById(userId)).Some? ==>
      var current := old(db.rows)[Find(old(db.rows), ById(userId)).value];
      (!UsernameClash(old(db.rows), current, data) && !EmailClash(old(db.rows), current, data) && !storageFails
       ==> reply.Ok?)
  {
    if !ValidUserUpdate(data) {
      return Fail(StatusUnprocessable, ValidationFailed);
    }
    var existingUser := UserService.GetUserById(db, userId);
    if existingUser.None? {
      return Fail(StatusNotFound, UserNotFound);
    }
    var current := existingUser.value;
    if Truthy(data.username) && data.username.value != current.username {
      var usernameConflict := UserService.GetUserByUsername(db, data.username.value);
      if usernameConflict.Some? {
        return Fail(StatusBadRequest, UsernameTaken);
      }
    }
    if Truthy(data.email) && data.email.value != current.email {
      var emailConflict := UserService.GetUserByEmail(db, data.email.value);
      if emailConflict.Some? {
        return Fail(StatusBadRequest, EmailTaken);
      }
    }
    PrecheckedUpdateFits(db.rows, Find(db.rows, ById(userId)).value, data, pwd);
    var updatedUser := UserService.UpdateUser(db, pwd, userId, data, storageFails);
    if updatedUser.None? {
      return Fail(StatusBadRequest, UpdateFailed);
    }
    reply := Ok(StatusOk, ToResponse(updatedUser.value));
  }

  /**
   * DELETE `/users/{user_id}`: 404 when the id is absent, 400 when the
   * service fails, otherwise 204 after exactly that row is removed.
   */
  method DeleteUser(db: UserTable, userId: int, storageFails: bool) returns (reply: Reply<()>)
    requires db.Valid()
    modifies db
    ensures db.Valid() && db.nextId == old(db.nextId)
    ensures Find(old(db.rows), ById(userId)).None? ==>
      reply == Fail(StatusNotFound, UserNotFound) && db.rows == old(db.rows)
    ensures Find(old(db.rows), ById(userId)).Some? && storageFails ==>
      reply == Fail(StatusBadRequest, DeleteFailed) && db.rows == old(db.rows)
    ensures Find(old(db.rows), ById(userId)).Some? && !storageFails ==>
      var i := Find(old(db.rows), ById(userId)).value;
      && reply == Ok(StatusNoContent, ())
      && db.rows == old(db.rows)[..i] + old(db.rows)[i + 1..]
      && GetUser(db, userId) == Fail(StatusNotFound, UserNotFound)
  {
    var existingUser := UserService.GetUserById(db, userId);
    if existingUser.None? {
      return Fail(StatusNotFound, UserNotFound);
    }
    var success := UserService.DeleteUser(db, userId, storageFails);
    if !success {
      return Fail(StatusBadRequest, DeleteFailed);
    }
    reply := Ok(StatusNoContent, ());
  }

  /**
   * POST `/users/login`: 401 when the username is unknown or the password
   * does not verify; 400 only when the password verifies but the account is
   * disabled; otherwise 200 with the user.
   */
  function Login(db: UserTable, pwd: PasswordHasher, body: UserLogin): (r: Reply<UserResponse>)
    reads db
    ensures var found := Lookup(db.rows, ByUsername(body.username));
      var verified := found.Some? && VerifyPassword(pwd, body.password, found.value.hashedPassword);
      && (r == Fail(StatusUnauthorized, InvalidCredentials) <==> !verified)
      && (r == Fail(StatusBadRequest, AccountDisabled) <==> verified && !found.value.isActive)
      && (r.Ok? <==> verified && found.value.isActive)
      && (r.Ok? ==> r == Ok(StatusOk, ToResponse(found.value)))
  {
    var user := UserService.AuthenticateUser(db, pwd, body.username, body.password);
    if user.None? then Fail(StatusUnauthorized, InvalidCredentials)
    else if !user.value.isActive then Fail(StatusBadRequest, AccountDisabled)
    else Ok(StatusOk, ToResponse(user.value))
  }

  /**
   * Once the update handler's pre-checks pass, the patched row fits the
   * unique indexes, so only a storage failure can still fail the update.
   * The pre-checks test truthiness, but a valid update never supplies an
   * empty username or e-mail, so "truthy" there means "supplied".
   */
  lemma PrecheckedUpdateFits(rows: seq<User>, i: nat, data: UserUpdate, pwd: PasswordHasher)
    requires Unique(rows) && i < |rows|
    requires ValidUserUpdate(data)
    requires !UsernameClash(rows, rows[i], data) && !EmailClash(rows, rows[i], data)
    ensures FitsAt(rows, i, UserService.Patched(rows[i], data, pwd))
  {
  }
}
