/** The token issuer (`jwt.sign(..., { expiresIn: '7d' })`) and the expiry check
    a verifier applies. Signing keys and cryptography are not modelled: a token
    is its claim set. Times are in seconds, as in the `iat`/`exp` claims. */
module Jwt {
  import opened Common

  /** `expiresIn: '7d'`, in seconds. */
  const SevenDays: int := 7 * 24 * 60 * 60

  /** The claims of a signed token: the account id, `iat` and `exp`. */
  datatype Token = Token(subject: int, issuedAt: int, expiresAt: int)

  /** The subject of a token checked at time `now`; an expired token
      (`now >= exp`) is refused. */
  function Verify(t: Token, now: int): (subject: Option<int>)
    ensures subject.Some? <==> now < t.expiresAt
    ensures subject.Some? ==> subject.value == t.subject
  {
    if now < t.expiresAt then Some(t.subject) else None
  }

  /** Expiry is final: a token refused at some time is refused at every later
      time, and one accepted at some time was accepted at every earlier time. */
  lemma ExpiryIsFinal(t: Token, now: int, later: int)
    requires now <= later
    ensures Verify(t, now).None? ==> Verify(t, later).None?
    ensures Verify(t, later).Some? ==> Verify(t, now) == Verify(t, later)
  {
  }

  /** `jwt.sign({ id }, secret, { expiresIn: '7d' })` at time `now`: the token
      resolves to `id` for exactly seven days and is refused afterwards. */
  function Sign(id: int, now: int): (t: Token)
    ensures t.issuedAt == now
    ensures forall at :: Verify(t, at) == (if at < now + SevenDays then Some(id) else None)
  {
    Token(id, now, now + SevenDays)
  }
}
