/**
 * Access tokens. Signing, encoding and expiry checking belong to the JWT library the
 * service uses; here a `Jwt` is any pair of an issuer and a checker, and what the service
 * relies on is stated as ghost predicates over the pair.
 */
module Tokens {
  import opened Wrappers
  import opened Strings

  /** Lifetime of an access token in seconds: 12 hours (src/config.py:31). */
  const AccessTokenExpires: nat := 60 * 60 * 12

  /** What checking a presented token yields: nothing usable, or its subject. */
  datatype Claim = Invalid | Valid(subject: string)

  /** `create(subject, issuedAt)` mints a token; `check(token, now)` validates one. */
  datatype Jwt = Jwt(create: (string, nat) -> string, check: (string, nat) -> Claim)

  /** A token checked from its issue instant up to and including its expiry instant yields
      the subject it was minted for (the library refuses only once `exp < now`). */
  ghost predicate Honest(j: Jwt) {
    forall subject, issuedAt: nat, now: nat
      | issuedAt <= now <= issuedAt + AccessTokenExpires
      :: j.check(j.create(subject, issuedAt), now) == Valid(subject)
  }

  /** A token checked after its expiry instant is refused. */
  ghost predicate Expiring(j: Jwt) {
    forall subject, issuedAt: nat, now: nat
      | issuedAt + AccessTokenExpires < now
      :: j.check(j.create(subject, issuedAt), now) == Invalid
  }

  /**
   * A concrete issuer and checker: the token is the expiry instant in decimal, a dot, and
   * the subject. It shows that `Honest` and `Expiring` can hold together; it has no
   * signature and is not a model of JWT.
   */
  function ReferenceCreate(subject: string, issuedAt: nat): string {
    NatToString(issuedAt + AccessTokenExpires) + "." + subject
  }

  function ReferenceCheck(token: string, now: nat): Claim {
    match IndexOf(token, '.')
    case None => Invalid
    case Some(k) =>
      if AllDigits(token[..k]) && now <= ParseNat(token[..k]) then Valid(token[k + 1..]) else Invalid
  }

  const Reference := Jwt(ReferenceCreate, ReferenceCheck)

  lemma ReferenceReadsBack(subject: string, issuedAt: nat, now: nat)
    ensures ReferenceCheck(ReferenceCreate(subject, issuedAt), now)
      == if now <= issuedAt + AccessTokenExpires then Valid(subject) else Invalid
  {
    var digits := NatToString(issuedAt + AccessTokenExpires);
    var token := ReferenceCreate(subject, issuedAt);
    assert token == digits + ['.'] + subject;
    IndexOfAfterDigits(digits, '.', subject);
    assert token[..|digits|] == digits;
    assert token[|digits| + 1..] == subject;
    ParseNatToString(issuedAt + AccessTokenExpires);
  }

  lemma ReferenceIsHonest()
    ensures Honest(Reference)
    ensures Expiring(Reference)
  {
    forall subject, issuedAt: nat, now: nat
      ensures Reference.check(Reference.create(subject, issuedAt), now)
        == if now <= issuedAt + AccessTokenExpires then Valid(subject) else Invalid
    {
      ReferenceReadsBack(subject, issuedAt, now);
    }
  }
}
