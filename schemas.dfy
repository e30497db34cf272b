/**
 * The request and response schemas of the user API and the field
 * constraints the validation layer enforces on them.  Lengths count
 * characters.  E-mail syntax is checked by a library; of it the model keeps
 * only the consequence the handlers rely on, that an e-mail is never empty.
 */
module Schemas {
  import opened Wrappers
  import Models

  /** A username has between 3 and 50 characters. */
  predicate ValidUsername(s: string)
  {
    3 <= |s| <= 50
  }

  /** A full name, when there is one, has at most 100 characters. */
  predicate ValidFullName(name: Option<string>)
  {
    name.Some? ==> |name.value| <= 100
  }

  /** An `EmailStr` has at least a local part, an `@` and a domain, so it is never empty. */
  predicate ValidEmail(s: string)
  {
    s != ""
  }

  /** A password has between 6 and 100 characters. */
  predicate ValidPassword(s: string)
  {
    6 <= |s| <= 100
  }

  /**
   * The body of a create request as it arrives: `fullName` and `bio` are None
   * when absent or null, the two flags are None when absent.
   */
  datatype CreateBody = CreateBody(
    username: string,
    email: string,
    password: string,
    fullName: Option<string>,
    bio: Option<string>,
    isActive: Option<bool>,
    isAdmin: Option<bool>)

  /** `UserCreate`: the validated create request, defaults filled in. */
  datatype UserCreate = UserCreate(
    username: string,
    email: string,
    fullName: Option<string>,
    bio: Option<string>,
    isActive: bool,
    isAdmin: bool,
    password: string)

  predicate ValidUserCreate(c: UserCreate)
  {
    ValidUsername(c.username) && ValidEmail(c.email) && ValidFullName(c.fullName) && ValidPassword(c.password)
  }

  /**
   * Building a `UserCreate` from a body: rejected (None) exactly when a length
   * constraint fails or the e-mail is empty; otherwise every supplied field is kept and an absent
   * `is_active` becomes true and an absent `is_admin` false.
   */
  function ParseUserCreate(b: CreateBody): (r: Option<UserCreate>)
    ensures r.Some? <==>
      ValidUsername(b.username) && ValidEmail(b.email) && ValidFullName(b.fullName) && ValidPassword(b.password)
    ensures r.Some? ==> ValidUserCreate(r.value)
    ensures r.Some? ==> r.value.username == b.username && r.value.email == b.email && r.value.password == b.password
    ensures r.Some? ==> r.value.fullName == b.fullName && r.value.bio == b.bio
    ensures r.Some? && b.isActive.None? ==> r.value.isActive
    ensures r.Some? && b.isAdmin.None? ==> !r.value.isAdmin
    ensures r.Some? && b.isActive.Some? ==> r.value.isActive == b.isActive.value
    ensures r.Some? && b.isAdmin.Some? ==> r.value.isAdmin == b.isAdmin.value
  {
    if ValidUsername(b.username) && ValidEmail(b.email) && ValidFullName(b.fullName) && ValidPassword(b.password) then
      Some(UserCreate(b.username, b.email, b.fullName, b.bio,
                      b.isActive.GetOr(true), b.isAdmin.GetOr(false), b.password))
    else
      None
  }

  /**
   * `UserUpdate`: every field optional, None meaning "not supplied".  For the
   * two nullable columns a supplied value may itself be null: `Some(None)`
   * clears the column, which is different from leaving it alone.
   */
  datatype UserUpdate = UserUpdate(
    username: Option<string>,
    email: Option<string>,
    fullName: Option<Option<string>>,
    bio: Option<Option<string>>,
    isActive: Option<bool>,
    isAdmin: Option<bool>,
    password: Option<string>)

  /** The constraints apply only to the fields that are supplied. */
  predicate ValidUserUpdate(u: UserUpdate)
  {
    && (u.username.Some? ==> ValidUsername(u.username.value))
    && (u.email.Some? ==> ValidEmail(u.email.value))
    && (u.fullName.Some? ==> ValidFullName(u.fullName.value))
    && (u.password.Some? ==> ValidPassword(u.password.value))
  }

  /** The update with no field supplied. */
  const NoChanges: UserUpdate := UserUpdate(None, None, None, None, None, None, None)

  /** An update that supplies nothing passes validation. */
  lemma NoChangesIsValid()
    ensures ValidUserUpdate(NoChanges)
  {
  }

  /** `UserLogin`: no constraints beyond both fields being strings. */
  datatype UserLogin = UserLogin(username: string, password: string)

  /** `UserResponse`: what a client sees of a user; it has no password hash. */
  datatype UserResponse = UserResponse(
    id: int,
    username: string,
    email: string,
    fullName: Option<string>,
    bio: Option<string>,
    isActive: bool,
    isAdmin: bool)

  /** Reading a response off a stored row (`from_attributes`). */
  function ToResponse(u: Models.User): UserResponse
  {
    UserResponse(u.id, u.username, u.email, u.fullName, u.bio, u.isActive, u.isAdmin)
  }

  /**
   * Two rows give the same response exactly when they differ at most in
   * their password hash: the response shows every stored field but that one.
   */
  lemma ResponseHidesOnlyTheHash(u: Models.User, v: Models.User)
    ensures ToResponse(u) == ToResponse(v) <==> u.(hashedPassword := v.hashedPassword) == v
  {
  }
}
