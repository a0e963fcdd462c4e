/** The foreign libraries the handlers call, as uninterpreted functions:
    bcrypt (hash with a salt, compare), jsonwebtoken (sign and verify with the
    server's secret and a one-hour expiry) and qrcode (encode a URL as an image
    data URL, which may fail). Only the promises stated by the predicates below
    are assumed of them, and only where a lemma says so. */
module Services {
  import opened Seqs

  /** The token payload `{ id, email }`, also the public part of an account. */
  datatype Claims = Claims(id: nat, email: string)

  datatype Crypto = Crypto(
    /** `bcrypt.hash(password, salt)` */
    hash: (string, string) -> string,
    /** `bcrypt.compare(password, passwordHash)` */
    compare: (string, string) -> bool,
    /** `jwt.sign(claims, secret, { expiresIn: '1h' })` */
    sign: Claims -> string,
    /** `jwt.verify(token, secret)`: the payload, or None for an invalid,
        malformed or expired token */
    verify: string -> Option<Claims>)

  /** bcrypt accepts a password against a hash made from it with any salt. */
  ghost predicate HashSound(c: Crypto) {
    forall p, s :: c.compare(p, c.hash(p, s))
  }

  /** A freshly signed token verifies to its payload, and is written without
      spaces (JWTs are base64url segments joined by dots). */
  ghost predicate TokensSound(c: Crypto) {
    forall cl :: c.verify(c.sign(cl)) == Some(cl) && ' ' !in c.sign(cl)
  }
}
