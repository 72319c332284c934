/**
 * The password hasher, treated as an opaque hash/verify pair. The digest
 * here simply remembers the secret, which makes verification exact; all the
 * model relies on is that a password verifies against its own hash.
 */
module Bcrypt {

  datatype Digest = Digest(secret: string)

  /** CompareHashAndPassword succeeding. */
  predicate Verify(password: string, digest: Digest)
  {
    digest.secret == password
  }

  /** GenerateFromPassword when it succeeds. */
  function Hash(password: string): (d: Digest)
    ensures Verify(password, d)
  {
    Digest(password)
  }
}
