/** The password hasher (`bcrypt.hash` / `bcrypt.compare`), kept abstract.

    A digest records the password it was made from, so that `Compare` can be
    defined, together with the cost factor and the random salt. Bcrypt's
    one-wayness is not modelled. The only property the engine relies on is
    that `Compare` accepts exactly the password the digest was made from. */
module Bcrypt {

  datatype Digest = Digest(preimage: string, cost: nat, salt: nat)

  /** `bcrypt.compare(candidate, digest)`. */
  predicate Compare(candidate: string, d: Digest)
    ensures Compare(candidate, d) <==> d == Digest(candidate, d.cost, d.salt)
  {
    candidate == d.preimage
  }

  /** `bcrypt.hash(password, cost)` with the salt bcrypt draws at random
      passed in explicitly. */
  function Hash(password: string, cost: nat, salt: nat): (d: Digest)
    ensures forall candidate :: Compare(candidate, d) <==> candidate == password
    ensures d.cost == cost
  {
    Digest(password, cost, salt)
  }

  /** Two hashes of the same password with different salts differ. */
  lemma HashIsSalted(password: string, cost: nat, salt1: nat, salt2: nat)
    requires salt1 != salt2
    ensures Hash(password, cost, salt1) != Hash(password, cost, salt2)
    ensures Compare(password, Hash(password, cost, salt1)) && Compare(password, Hash(password, cost, salt2))
  {
  }
}
