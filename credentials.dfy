/**
 * The password verifier. bcrypt is a salted one-way function whose salt comes
 * from a random source; it is modelled here by an ideal digest that records
 * the salt it was made with and (abstractly) the password it was made from.
 * Callers never look inside a digest: they only use `HashPassword` and
 * `IsValid`, exactly as the source only uses `hashpw` and `checkpw`.
 */
module Credentials {

  /** A salted digest. `source` records the hashed password, so verification compares against it. */
  datatype Digest = Digest(salt: nat, source: string)

  /** `bcrypt.hashpw(password, gensalt())` with the random salt passed in. */
  function HashPassword(password: string, salt: nat): (d: Digest)
    ensures IsValid(d, password)
    ensures d.salt == salt
  {
    Digest(salt, password)
  }

  /** `bcrypt.checkpw(password, digest)`. */
  predicate IsValid(d: Digest, password: string)
  {
    d.source == password
  }

  /**
   * A digest accepts its own password and no other, whatever salt made it;
   * two hashes of one password differ when their salts do.
   */
  lemma VerifierAcceptsOnlyItsPassword(password: string, other: string, salt: nat, salt': nat)
    ensures IsValid(HashPassword(password, salt), other) <==> other == password
    ensures salt != salt' ==> HashPassword(password, salt) != HashPassword(password, salt')
  {
  }
}
