/**
 * Shared/Helpers/AuthHelper.cs: password hashing and checking.  BCrypt is a
 * library call, so the hasher is a parameter: `hash(password, salt)` and
 * `verify(password, hash)`, with the two facts about BCrypt the handlers rely on.
 */
module AuthHelper {
  import opened Entities

  /** BCrypt's `HashPassword` (with the salt it draws) and `Verify`. */
  datatype PasswordHasher = PasswordHasher(hash: (string, string) -> string, verify: (string, string) -> bool)

  /**
   * What BCrypt guarantees: a password verifies against its own hash, whatever
   * the salt, and a hash is 60 characters long.
   */
  ghost predicate IsBCrypt(h: PasswordHasher) {
    forall password, salt :: h.verify(password, h.hash(password, salt)) && |h.hash(password, salt)| == 60
  }

  /** `CheckPassword(user, password)`: BCrypt's verify against the stored hash. */
  function CheckPassword(h: PasswordHasher, user: User, password: string): (ok: bool)
    ensures IsBCrypt(h) && (exists salt :: user.hashPassword == h.hash(password, salt)) ==> ok
  {
    h.verify(password, user.hashPassword)
  }
}
