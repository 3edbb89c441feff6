/** bcrypt as the repositories and the in-memory handlers use it:
    `GenerateFromPassword` at the default cost, and `CompareHashAndPassword`.

    The key-derivation function itself is not computed. A hash records its
    cost, its salt and an opaque digest of the password, and the digest
    constructor is injective: equal digests come from equal passwords. That
    is the one property of bcrypt the application relies on. The salt comes
    from the caller because bcrypt draws it from `crypto/rand`. */
module Bcrypt {

  /** bcrypt.DefaultCost */
  const DefaultCost: nat := 10

  /** The digest of a password under a salt and a cost. */
  datatype Digest = Digest(cost: nat, salt: string, password: string)

  /** A stored bcrypt hash string, in its parsed form. */
  datatype Hash = Hash(cost: nat, salt: string, digest: Digest)

  /** bcrypt.GenerateFromPassword(password, DefaultCost) with the salt drawn
      by the caller. */
  function GenerateFromPassword(password: string, salt: string): (h: Hash)
    ensures h.cost == DefaultCost && h.salt == salt
  {
    Hash(DefaultCost, salt, Digest(DefaultCost, salt, password))
  }

  /** bcrypt.CompareHashAndPassword succeeds (returns a nil error): the
      password, hashed again with the stored cost and salt, gives the stored
      digest. */
  predicate CompareHashAndPassword(h: Hash, password: string) {
    Digest(h.cost, h.salt, password) == h.digest
  }

  /** A generated hash accepts exactly the password it was generated from,
      whatever the salt. */
  lemma CompareGenerated(password: string, salt: string, attempt: string)
    ensures CompareHashAndPassword(GenerateFromPassword(password, salt), attempt)
            <==> attempt == password
  {
  }
}
