/**
 * The signed-token collaborator (`jsonwebtoken`), kept abstract: signing and
 * verifying are function parameters of the operations that use them.  The
 * clock that `sign` stamps into a token and `verify` compares against is
 * inside these functions.
 */
module Jwt {
  import opened Wrappers

  /** The payload `{ id }` both tokens carry. */
  datatype Claims = Claims(id: string)

  /** An `expiresIn` option written in days, as in "1d" and "7d". */
  datatype Span = Days(n: nat)

  function Seconds(span: Span): nat
  {
    span.n * 24 * 60 * 60
  }

  /** `jwt.sign(payload, secret, { expiresIn })`. */
  type Signer = (Claims, string, Span) -> string

  /** The two outcomes of `jwt.verify(token, secret)`: it throws, or returns the decoded payload (`None` when falsy). */
  datatype Verified = Throws | Decoded(payload: Option<Claims>)

  type Verifier = (string, string) -> Verified

  /** A signer and a verifier that agree: a token verifies under the secret that signed it, and under no other. */
  ghost predicate Agree(sign: Signer, verify: Verifier)
  {
    forall c, secret, span, key :: verify(sign(c, secret, span), key) == if key == secret then Decoded(Some(c)) else Throws
  }
}
