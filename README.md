# User management service: a Dafny model of the user lifecycle

This project models the core of a small HTTP CRUD service for user accounts.
The service stores users in one relational table with unique usernames and
e-mails. It hashes passwords before storing them, supports partial updates,
and authenticates by username and password. The model has three layers:

- `Schemas` (`schemas.dfy`): the request and response schemas. It holds the
  length constraints on usernames, full names and passwords, the defaults of
  `is_active` and `is_admin`, and the all-optional update shape. In that shape
  "not supplied" (`None`) is distinct from every value. For the nullable
  `full_name` and `bio`, "supplied as null" (`Some(None)`) is distinct too.
- `Models` (`models.dfy`) and `UserService` (`user_service.dfy`): the users
  table and the service operations on it. `Models.UserTable` is a class whose
  fields are the rows (a `seq<User>` in storage order) and the
  auto-increment counter. Its invariant `Valid()` says that ids are positive
  and below the counter, so they are never reused. It also says that no two
  rows share an id, a username or an e-mail. The service methods change the
  table in place. Each write either commits or, on an integrity error or a
  storage failure up to and including the commit, rolls back and leaves the
  table exactly as it was.
- `UserEndpoints` (`user_endpoints.dfy`): the request handlers. Each handler
  runs its checks in the source's order and maps each outcome to a status
  code and a detail message. The handlers that only read are functions. The
  ones that write are methods over the table.

`Passwords` (`passwords.dfy`) stands for the bcrypt library. A hasher is a
pair of opaque functions, `hash` and `verify`. The library's promise that a
password verifies against its own hash is the predicate `Sound`. Lemmas that
need it take it as a precondition. `Exact` is a stronger law, used only for
the "wrong password is refused" lemma. It says that a digest verifies no
other password.

Interfaces to the outside world become parameters:
- The hasher is passed to every operation that hashes or verifies.
- A storage failure other than a uniqueness violation (a lost connection,
  say) is the boolean input `storageFails` of each write. It covers failures
  up to and including the commit.

Behaviour that follows from the code and is easy to misread:
- A request that fails schema validation gets FastAPI's default 422:
  `app/main.py` installs no exception handler that changes it.
- `authenticate_user` returns the user whether or not the account is active.
  The disabled-account answer (400) comes from the login handler, and only
  after the password has verified.
- `update_user` in the service does not re-check uniqueness itself. The
  handler's pre-checks and the table's unique indexes do that. The model's
  service rejects a patch that would break an index, as the integrity-error
  branch does.

## Model

| member | source | states |
|---|---|---|
| Models.Find | app/services/user_service.py:60-72 | a lookup returns the position of the first row matching the id, username or e-mail filter; it returns None exactly when no row matches |
| Passwords.HashThenVerify | app/services/user_service.py:15-23 | under the library's round-trip law, a password verifies against its own hash |
| Passwords.WrongPasswordRefused | app/services/user_service.py:20-23 | under the stronger exact law, any other password does not verify against the hash |
| Schemas.ParseUserCreate | app/schemas/user.py:6-16 | a create body is accepted exactly when the username has 3-50 characters, the e-mail is non-empty, the full name (if any) at most 100, and the password 6-100; the supplied fields are kept; an absent is_active becomes true and an absent is_admin false |
| Schemas.NoChangesIsValid | app/schemas/user.py:19-26 | an update that supplies no field passes validation |
| Schemas.ResponseHidesOnlyTheHash | app/schemas/user.py:29-50 | two stored rows give the same response exactly when they differ at most in the password hash, so the response shows every stored field except the hash |
| Passwords.HashPassword | app/services/user_service.py:15-18 | the stored digest of a password is whatever the hashing library returns for it; the library is an opaque parameter |
| Passwords.VerifyPassword | app/services/user_service.py:20-23 | checking a password against a digest is the library's verify; its only assumed law is `Sound` (and, for one lemma, `Exact`) |
| Models.Lookup | app/services/user_service.py:59-72 | `.first()` of a filter: the row found is stored and matches the key; None exactly when no stored row matches |
| Models.UserTable.Valid | app/services/user_service.py:50-53 | the table's unique indexes on id, username and e-mail (whose violation is the integrity-error branch) hold, and every id lies below the auto-increment counter, so an id is never reused |
| Models.UniqueMatch | app/services/user_service.py:59-72 | under the unique indexes a key matches at most one row, so `.first()` finds the only match |
| Schemas.ValidUserUpdate | app/schemas/user.py:19-26 | an update passes validation exactly when each supplied field meets its own constraint (username 3-50, e-mail non-empty, full name at most 100, password 6-100); absent fields are not checked |
| Schemas.ToResponse | app/schemas/user.py:29-35 | the response read off a stored row carries its id, username, e-mail, full name, bio and both flags, and never the password hash |
| UserEndpoints.UsernameClash | app/api/endpoint/users.py:85-92 | the username pre-check fires exactly when a truthy username is supplied, differs from the current one and some stored row has it |
| UserEndpoints.EmailClash | app/api/endpoint/users.py:94-100 | the e-mail pre-check fires exactly when a truthy e-mail is supplied, differs from the current one and some stored row has it |
| UserService.StoredUserLogsIn | app/services/user_service.py:25-57 | the row just appended by a create authenticates with the password it was created with under the round-trip law, and with no other password under the exact law |
| UserService.CreateUser | app/services/user_service.py:25-57 | succeeds exactly when storage does not fail and the username and e-mail are both free; the new row has the next id, copies every input field, and stores hash(password) in place of the password; the row is appended and the counter advances; on failure (up to the commit) the table and the counter are unchanged; afterwards, under the round-trip law, logging in with the new username and its password returns the new row, and under the exact law no other password does |
| UserService.GetUserById | app/services/user_service.py:59-62 | returns a stored row with that id, or None exactly when no row has it |
| UserService.GetUserByUsername | app/services/user_service.py:64-67 | returns a stored row with that username, or None exactly when no row has it |
| UserService.GetUserByEmail | app/services/user_service.py:69-72 | returns a stored row with that e-mail, or None exactly when no row has it |
| UserService.GetUsers | app/services/user_service.py:74-77 | returns at most `limit` rows: those at positions skip, skip+1, ... of the storage order; it returns none when `skip` is past the end |
| UserService.SetFields | app/services/user_service.py:88 | the update dictionary has a key exactly for each supplied field, each entry under its own column |
| UserService.UpdateData | app/services/user_service.py:88-92 | after the password step the dictionary has no plaintext password entry; it has a hashed_password entry holding hash(password) exactly when a password was supplied; the other supplied fields are kept as they are |
| UserService.UpdateDataMeansPatched | app/services/user_service.py:88-95 | writing the update dictionary into a row gives the reference patch: supplied fields take their new values, the others and the id keep theirs, and a supplied password is stored as its hash |
| UserService.NoChangesKeepsRow | app/services/user_service.py:88-95 | an update that supplies nothing leaves the row unchanged |
| UserService.WriteFields | app/services/user_service.py:94-95 | the setattr loop, visiting the dictionary entries in any order, produces the row with every entry written and nothing else changed |
| UserService.UpdateUser | app/services/user_service.py:79-110 | an absent id gives None and no change; otherwise the call succeeds exactly when storage does not fail and the patched row clashes with no other row; on success only that row changes, to the reference patch, and every other row is unchanged; on failure (up to the commit) the table is unchanged |
| UserService.DeleteUser | app/services/user_service.py:112-129 | returns true exactly when the id exists and storage does not fail; then exactly that row is removed, the others stay in order, and the id no longer matches any row; otherwise the table is unchanged |
| UserService.AuthenticateUser | app/services/user_service.py:131-141 | returns the user with that username exactly when the user exists and the password verifies against the stored hash; is_active plays no part |
| UserService.StoredPasswordAuthenticates | app/services/user_service.py:131-141 | under the round-trip law, a stored user whose hash was made from a password authenticates with that password and gets back that very row |
| UserService.StoredUserRejectsOtherPassword | app/services/user_service.py:131-141 | under the exact law, a stored user never authenticates with a different password |
| UserEndpoints.CreateUser | app/api/endpoint/users.py:13-43 | 422 for an invalid body; 400 "Username already registered" when the username exists (checked before the e-mail); 400 "Email already registered"; 400 "Failed to create user" on a storage failure; otherwise 201 with the new user appended; the id counter advances by one on 201 and stays put on every error, which leaves the table unchanged (for a storage failure up to the commit); after 201, under the round-trip law, logging in with the same username and password answers 200 with the same user if it is active and 400 "User account is disabled" if not |
| UserEndpoints.ListUsers | app/api/endpoint/users.py:45-53 | succeeds exactly when skip >= 0 and 1 <= limit <= 100 (defaults 0 and 100), otherwise 422; on success it returns exactly as many users as the service's offset/limit window holds, at most limit and so at most 100: the rows from position skip on, in order |
| UserEndpoints.GetUser | app/api/endpoint/users.py:55-67 | 404 "User not found" exactly when no row has the id; otherwise 200 with a stored user of that id |
| UserEndpoints.GetUserByUsername | app/api/endpoint/users.py:155-167 | 404 "User not found" exactly when no row has the username; otherwise 200 with a stored user of that name |
| UserEndpoints.UpdateUser | app/api/endpoint/users.py:69-110 | 422 for an invalid body; 404 for an absent id; 400 "Username already taken" only when a username is supplied, differs from the current one and is in use; then the same rule for the e-mail; 400 "Failed to update user" when the service fails; otherwise 200 with the patched row; once both pre-checks pass, only a storage failure can still fail the request; every error leaves the table unchanged (for a storage failure up to the commit) |
| UserEndpoints.PrecheckedUpdateFits | app/api/endpoint/users.py:84-100 | once the pre-checks pass on a valid update, the patched row fits the unique indexes, so only a storage failure can fail the update; renaming a user to their own name or e-mail never clashes |
| UserEndpoints.DeleteUser | app/api/endpoint/users.py:112-132 | 404 for an absent id; 400 "Failed to delete user" on a storage failure; otherwise 204 with exactly that row removed, after which GET by that id answers 404 |
| UserEndpoints.Login | app/api/endpoint/users.py:134-153 | 401 exactly when the username is unknown or the password does not verify; 400 "User account is disabled" exactly when the password verifies and the account is inactive; 200 with the user exactly when it verifies and the account is active; so a disabled user with a wrong password gets 401 |

## Left out

- Timestamps (`created_at`, `updated_at`): the ORM model file that manages them is not part of this model.
- The ORM model file (`app/core/models/user.py`) is not part of this model. The columns and unique indexes are inferred from the service code and from `UserInDB`.
- E-mail syntax and normalisation (`EmailStr`, app/schemas/user.py:8 and :21): the library both checks an address and rewrites it. It lowercases the domain, strips surrounding whitespace and drops a display name, and the program stores and compares the rewritten form. The model has no rewriting step. Every e-mail string in it, `CreateBody.email` and `UserUpdate.email` included, stands for the address after normalisation. Two request addresses that normalise to the same form (`a@X.com` and `a@x.com`) are therefore one string in the model. Presented as two different strings, they would not clash as they do in the program (400 "Email already registered"). Of the syntax check, the model keeps only the consequence the handlers rely on, that a valid e-mail is not empty (`Schemas.ValidEmail`).
- Schemas.ParseUserCreate: `r.value.email == b.email` holds only because `b.email` already stands for the normalised address. The model does not state the library's rewriting, or that the rewriting is idempotent.
- An explicit null for `username`, `email`, `is_active` or `is_admin` in an update: the outcome depends on column constraints in the model file, which is not part of this model. Only `full_name` and `bio` can be set to null.
- An explicit null `password` in an update: the service pops it and hashes `None` inside its try block (app/services/user_service.py:91-92). The library raises, the except branch rolls back and returns None, and the handler answers 400 "Failed to update user". The model's update type has no null password (`UserUpdate.password` is an `Option<string>`), so this path is not modelled.
- Salting: bcrypt draws a random salt, so hashing the same password twice gives different digests. The model's `hash` is one fixed opaque function. No property here depends on two hashes being equal or different.
- Passwords.WrongPasswordRefused: `Exact` is stronger than bcrypt, which compares only the first 72 bytes, while passwords may have up to 100 characters. Lemmas that use `Exact` hold only for a hasher that distinguishes whole passwords.
- UserService.GetUsers: `skip` and `limit` are naturals. The handler passes only non-negative values. A negative offset or limit from another caller would be a database error, which is not modelled.
- Errors raised by the hashing library inside the service's try blocks (create and update): these also roll back and yield None in the service. The model folds them into `storageFails` and does not name them separately.
- UserService.AuthenticateUser and UserEndpoints.Login: `verify_password` runs outside any try block (app/services/user_service.py:138), and the login handler catches nothing (app/api/endpoint/users.py:134-153). If the library raises, the request ends in a 500; bcrypt does so for a password containing NUL or longer than 4096 characters. The model's `verify` is total, so this path gets 401, 400 or 200 in the model. The model leaves the 500 out.
- A failure after the commit (`db.refresh` at app/services/user_service.py:45 and :98): the row is already stored, the except branch has nothing to roll back, and the service still returns None. The handler then answers 400 "Failed to create user" or "Failed to update user" although the write took effect. `storageFails` stands only for a failure up to and including the commit, so this path is not modelled. Hence UserService.CreateUser, UserService.UpdateUser, UserEndpoints.CreateUser and UserEndpoints.UpdateUser promise that a failure leaves the table unchanged only for failures up to the commit.
- Storage failures while reading (the lookup queries): only a failure at commit time is modelled, as `storageFails`.
- Collation: string comparison in the model is exact. The program connects to MySQL (app/core/config.py:32), whose default collations compare case-insensitively. On a default deployment the unique indexes and lookups are therefore coarser than in the model: creating `alice` after `Alice` gets 400 "Username already registered" from the program and 201 from the model. The same holds for e-mails and for the lookups by username and by e-mail.
- Ordering: the listing query has no ORDER BY. The model uses the table's storage order, which is insertion order with deleted rows removed.
- The id counter is not advanced by a failed insert. A database may consume an auto-increment value on a failed insert, so after one the model's next id may be lower than the database's. Only the exact id of a later new row, as in the 201 body, depends on that. Uniqueness, lookups and every status code do not.
- The body of a 422 response (the framework lists the failing fields): the model gives one fixed detail string.
- Logging, the timing side channel of authentication on an unknown username, async execution and concurrent writers.
- Connection and pool setup, session handling, table creation, settings loading, application construction, router mounting, the health endpoint and the connection-test script: these are framework and I/O glue.
