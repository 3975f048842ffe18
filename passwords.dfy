/**
 * Password hashing (`generate_password_hash` / `check_password_hash`),
 * modelled as an ideal salted hash: a stored hash verifies a candidate
 * password exactly when it was made from that password, whatever the salt.
 */
module Passwords {

  /** A stored password hash; the salt stands for the generator's randomness. */
  datatype PasswordHash = PasswordHash(salt: nat, secret: string)

  /** `generate_password_hash(password)` with the salt it happened to draw. */
  function Hash(password: string, salt: nat): PasswordHash
  {
    PasswordHash(salt, password)
  }

  /** `check_password_hash(stored, candidate)`. */
  predicate Verify(stored: PasswordHash, candidate: string)
  {
    stored.secret == candidate
  }

  /** The one property the rest of the model relies on. */
  lemma VerifyHash(password: string, salt: nat, candidate: string)
    ensures Verify(Hash(password, salt), candidate) <==> candidate == password
  {
  }
}
