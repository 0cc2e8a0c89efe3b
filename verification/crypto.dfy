/**
 * Password hashing (src/utils.py:9-14). The bcrypt context is not modelled: a `Hasher` is
 * any pair of a salted hash function and a verifier. What a caller may assume of it is
 * stated as ghost predicates, which the lemmas that need them require: `RoundTrips` and
 * `BcryptShaped` hold of bcrypt; `Discriminates` is an idealisation it does not meet.
 */
module Crypto {

  /** The salt bcrypt draws afresh for every hash; an input here, never generated. */
  type Salt = char

  datatype Hasher = Hasher(hash: (Salt, string) -> string, verify: (string, string) -> bool)

  /** Length of every bcrypt hash string ("$2b$" + cost + "$" + 22 salt + 31 digest characters). */
  const BcryptHashLength := 60

  /** Whatever the salt, a hash verifies against the plaintext it was made from. */
  ghost predicate RoundTrips(h: Hasher) {
    forall salt, plain :: h.verify(plain, h.hash(salt, plain))
  }

  /**
   * A hash verifies against no plaintext other than the one it was made from. This is an
   * idealisation: bcrypt reads only the first 72 bytes of a password, so two passwords
   * agreeing on those bytes verify against each other's hashes, and no hash with a fixed
   * length can tell all strings apart. Only the test pair below relies on it.
   */
  ghost predicate Discriminates(h: Hasher) {
    forall salt, plain, other :: h.verify(other, h.hash(salt, plain)) ==> other == plain
  }

  /** Every hash has bcrypt's fixed length. */
  ghost predicate BcryptShaped(h: Hasher) {
    forall salt, plain :: |h.hash(salt, plain)| == BcryptHashLength
  }

  /** `get_password_hash`: the stored form of a new password. */
  function GetPasswordHash(h: Hasher, salt: Salt, plain: string): (r: string)
    ensures RoundTrips(h) ==> h.verify(plain, r)
    ensures Discriminates(h) ==> forall other | h.verify(other, r) :: other == plain
    ensures BcryptShaped(h) ==> |r| == BcryptHashLength
  {
    h.hash(salt, plain)
  }

  /** `verify_password`: whether a plaintext matches a stored hash. */
  function VerifyPassword(h: Hasher, plain: string, hashed: string): (r: bool)
    ensures RoundTrips(h) ==> forall salt | hashed == h.hash(salt, plain) :: r
    ensures Discriminates(h) && r ==> forall salt, other | hashed == h.hash(salt, other) :: other == plain
  {
    h.verify(plain, hashed)
  }

  /** The pair tests/test_utils.py checks: a password verifies against its own hash and
      "test" does not verify against the hash of "test_password". */
  lemma HashedPasswordVerifies(h: Hasher, salt: Salt)
    requires RoundTrips(h) && Discriminates(h)
    ensures VerifyPassword(h, "test_password", GetPasswordHash(h, salt, "test_password"))
    ensures !VerifyPassword(h, "test", GetPasswordHash(h, salt, "test_password"))
  {
  }

  /**
   * A concrete hasher, showing that `RoundTrips` and `Discriminates` can hold together and
   * that salting makes equal passwords hash differently. It is a witness, not bcrypt:
   * its output reveals the plaintext.
   */
  function ReferenceHash(salt: Salt, plain: string): string {
    [salt] + plain
  }

  function ReferenceVerify(plain: string, hashed: string): bool {
    1 <= |hashed| && hashed[1..] == plain
  }

  const Reference := Hasher(ReferenceHash, ReferenceVerify)

  lemma ReferenceIsSound()
    ensures RoundTrips(Reference)
    ensures Discriminates(Reference)
  {
    forall salt, plain ensures ReferenceVerify(plain, ReferenceHash(salt, plain)) {
      assert ReferenceHash(salt, plain)[1..] == plain;
    }
  }

  lemma ReferenceSalts(s1: Salt, s2: Salt, plain: string)
    requires s1 != s2
    ensures Reference.hash(s1, plain) != Reference.hash(s2, plain)
  {
    assert ReferenceHash(s1, plain)[0] != ReferenceHash(s2, plain)[0];
  }
}
