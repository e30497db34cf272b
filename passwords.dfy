/**
 * The password hasher (`pwd_context` and `UserService.hash_password` /
 * `UserService.verify_password`).  The bcrypt scheme behind them belongs to
 * a library, so the hasher is a pair of opaque functions: nothing in the
 * model depends on how a hash is computed, only on the law that a password
 * verifies against its own hash, which the library promises and which is
 * stated here as the predicate `Sound`.
 */
module Passwords {

  /** `hash` produces the stored digest; `verify(plain, digest)` checks one. */
  datatype PasswordHasher = PasswordHasher(hash: string -> string, verify: (string, string) -> bool)

  /** The library's round-trip law: every password verifies against its own hash. */
  ghost predicate Sound(pwd: PasswordHasher)
  {
    forall p: string :: pwd.verify(p, pwd.hash(p))
  }

  /** A stronger law than bcrypt offers: a digest verifies no password but its own. */
  ghost predicate Exact(pwd: PasswordHasher)
  {
    forall p: string, q: string :: pwd.verify(q, pwd.hash(p)) ==> q == p
  }

  /** `UserService.hash_password`. */
  function HashPassword(pwd: PasswordHasher, password: string): string
  {
    pwd.hash(password)
  }

  /** `UserService.verify_password`. */
  predicate VerifyPassword(pwd: PasswordHasher, plain: string, hashed: string)
  {
    pwd.verify(plain, hashed)
  }

  /** A password checks out against the digest stored for it. */
  lemma HashThenVerify(pwd: PasswordHasher, password: string)
    requires Sound(pwd)
    ensures VerifyPassword(pwd, password, HashPassword(pwd, password))
  {
  }

  /** Under the stronger law, any other password is refused. */
  lemma WrongPasswordRefused(pwd: PasswordHasher, password: string, other: string)
    requires Exact(pwd)
    requires other != password
    ensures !VerifyPassword(pwd, other, HashPassword(pwd, password))
  {
  }
}
