/**
 A stand-in for bcrypt. The key-derivation function itself is not modelled: it is a
 parameter (`Hasher.kdf`), so nothing is assumed about it beyond being a function.
 Hashing is salted, and the salt is an input, so two hashes of one password may differ;
 the salt and the cost are stored inside the hash, as bcrypt's output string does, so that
 verification can recompute the digest.
 */
module Password {

  /** The bcrypt cost factor the register handler passes to `bcrypt.hash`. */
  const BcryptRounds: nat := 10

  type Salt = nat

  /** The one-way transform: (cost, salt, plaintext) to digest. */
  datatype Hasher = Hasher(kdf: (nat, Salt, string) -> string)

  /** What the users table stores in its password column. */
  datatype PasswordHash = PasswordHash(rounds: nat, salt: Salt, digest: string)

  /** `bcrypt.compare`: recompute the digest with the cost and salt embedded in `stored`. */
  predicate Verify(h: Hasher, plaintext: string, stored: PasswordHash)
  {
    h.kdf(stored.rounds, stored.salt, plaintext) == stored.digest
  }

  /** `bcrypt.hash(plaintext, 10)` with the salt it draws. */
  function Hash(h: Hasher, salt: Salt, plaintext: string): (r: PasswordHash)
    ensures r.rounds == BcryptRounds && r.salt == salt
    ensures Verify(h, plaintext, r)
  {
    PasswordHash(BcryptRounds, salt, h.kdf(BcryptRounds, salt, plaintext))
  }

  /**
   For a hash made at the register cost, verifying a plaintext is the same as hashing it
   again with the salt embedded in the stored hash and comparing the results.
   */
  lemma VerifyIsRehash(h: Hasher, plaintext: string, stored: PasswordHash)
    requires stored.rounds == BcryptRounds
    ensures Verify(h, plaintext, stored) <==> Hash(h, stored.salt, plaintext) == stored
  {
  }
}
