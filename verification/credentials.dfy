/** Delete-password credentials.

    The board stores a bcrypt hash of every delete password and later compares
    a supplied plaintext against it. Salt generation, cost rounds and the hash
    algorithm are not modelled: a credential is an opaque wrapper around the
    password it was derived from, and verification succeeds exactly for that
    password.
 */
module Credentials {

  /** A stored password hash. */
  datatype Cred = Cred(pw: string)

  /** True when `password` is the one `c` was derived from. */
  predicate Verify(password: string, c: Cred) {
    c == Cred(password)
  }

  /** Derives the stored credential for a delete password. */
  function Hash(password: string): (c: Cred)
    ensures Verify(password, c)
    ensures forall other :: Verify(other, c) ==> other == password
  {
    Cred(password)
  }
}
