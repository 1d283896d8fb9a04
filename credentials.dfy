/** Password hashing (bcrypt) and session tokens (jwt), kept opaque. A hash is a
    symbolic term that records the per-call salt and what it was computed from; the
    only thing the model ever does with it is compare a candidate password. A token is
    the claim it carries and its lifetime; signing and the secret are not modelled. */
module Credentials {

  /** bcrypt cost factor used at registration. */
  const SaltRounds: nat := 10

  /** The stored form of a password. Its type differs from `string`, so a plaintext
      password cannot be stored where a hash is expected. */
  datatype PasswordHash = Bcrypt(rounds: nat, salt: nat, source: string)

  /** `bcryptjs.hash(password, 10)`, with the random salt given as a parameter. */
  function Hash(password: string, salt: nat): PasswordHash {
    Bcrypt(SaltRounds, salt, password)
  }

  /** `bcryptjs.compare(candidate, h)`, idealised: true exactly for the hashed password. */
  predicate Compare(candidate: string, h: PasswordHash) {
    candidate == h.source
  }

  /** The hash of a password verifies that password whatever the salt, and no other. */
  lemma CompareHash(password: string, candidate: string, salt: nat)
    ensures Compare(password, Hash(password, salt))
    ensures Compare(candidate, Hash(password, salt)) <==> candidate == password
  {
  }

  /** `jwt.sign({ userId }, SECRET, { expiresIn: '1d' })`. */
  datatype Token = Jwt(userId: nat, expiresInSeconds: nat)

  const TokenLifetimeSeconds: nat := 24 * 60 * 60

  /** The `token` cookie set on login. */
  datatype Cookie = Cookie(name: string, token: Token, maxAgeMs: nat, httpOnly: bool, sameSite: string)

  /** The cookie login sets: name `token`, one day in milliseconds, HTTP-only, SameSite strict. */
  function SessionCookie(userId: nat): (c: Cookie)
    ensures c.token.userId == userId
    ensures c.maxAgeMs == 1000 * c.token.expiresInSeconds == 86400000
  {
    Cookie("token", Jwt(userId, TokenLifetimeSeconds), 24 * 60 * 60 * 1000, true, "strict")
  }
}
