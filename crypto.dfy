/**
 * The password hasher (bcrypt) and the token signer/verifier (jsonwebtoken),
 * seen from the outside. Both are passed in as values carrying functions;
 * what the core needs of them is stated as predicates that the lemmas
 * needing them require. Salts, cost rounds, algorithms and signatures are
 * not modelled.
 */
module Crypto {
  import opened Options

  /** `bcrypt.hash(plaintext, 10)` and `bcrypt.compare(plaintext, digest)`. */
  datatype Hasher = Hasher(hash: string -> string, compare: (string, string) -> bool)

  /** A digest always verifies against the plaintext it was made from. */
  ghost predicate HashVerifies(h: Hasher) {
    forall p :: h.compare(p, h.hash(p))
  }

  /** The length of a bcrypt digest ("$2b$10$" + 22 salt + 31 hash characters). */
  const BcryptDigestLength: nat := 60

  /** Every digest has bcrypt's fixed length, whatever the plaintext. */
  ghost predicate BcryptShaped(h: Hasher) {
    forall p :: |h.hash(p)| == BcryptDigestLength
  }

  /** The claims of a login token: `{ id }` plus the issue time and expiry jsonwebtoken adds, in seconds. */
  datatype Claims = Claims(id: nat, iat: int, exp: int)

  /** `jwt.sign(claims, key)` and the decoding half of `jwt.verify(token, key)` (None: malformed or bad signature). */
  datatype TokenCodec = TokenCodec(sign: (Claims, string) -> string, decode: (string, string) -> Option<Claims>)

  /**
   * A token signed with a non-empty key decodes under that key to the claims
   * it was made from, and a compact token is non-empty and has no space.
   */
  ghost predicate SoundCodec(c: TokenCodec) {
    && (forall cl, k :: k != "" ==> c.decode(c.sign(cl, k), k) == Some(cl))
    && (forall cl, k :: c.sign(cl, k) != [] && ' ' !in c.sign(cl, k))
  }

  /** `expiresIn: "1h"`. */
  const TokenLifetime: int := 3600

  /** The literal used for signing when `JWT_SECRET` is unset or empty. */
  const FallbackSecret: string := "secret"

  /** `process.env.JWT_SECRET || "secret"`: the environment's secret unless it is unset or empty. */
  function SigningKey(env: Option<string>): (k: string)
    ensures k != ""
    ensures env.Some? && env.value != "" ==> k == env.value
    ensures env.None? || env.value == "" ==> k == FallbackSecret
  {
    if env.Some? && env.value != "" then env.value else FallbackSecret
  }

  /**
   * The key `jwt.verify(token, process.env.JWT_SECRET)` uses: none when the
   * variable is unset or empty (jsonwebtoken 9 and later then reject every
   * token; earlier versions accept an unsigned `alg: "none"` token).
   */
  function VerifyingKey(env: Option<string>): (k: Option<string>)
    ensures k.Some? <==> env.Some? && env.value != ""
    ensures k.Some? ==> k.value == SigningKey(env)
  {
    if env.Some? && env.value != "" then Some(env.value) else None
  }

  /** jsonwebtoken's clock: whole seconds of `Date.now()`. */
  function Seconds(nowMs: nat): int {
    nowMs / 1000
  }

  /** The claims a login at `nowMs` puts into the token of user `id`. */
  function LoginClaims(id: nat, nowMs: nat): (cl: Claims)
    ensures cl.id == id && cl.iat == Seconds(nowMs) && cl.exp == cl.iat + TokenLifetime
  {
    Claims(id, Seconds(nowMs), Seconds(nowMs) + TokenLifetime)
  }

  /** `jwt.sign({ id }, process.env.JWT_SECRET || "secret", { expiresIn: "1h" })`. */
  function Issue(c: TokenCodec, id: nat, env: Option<string>, nowMs: nat): (token: string)
    ensures SoundCodec(c) ==> token != [] && ' ' !in token
    ensures SoundCodec(c) ==> c.decode(token, SigningKey(env)) == Some(LoginClaims(id, nowMs))
  {
    c.sign(LoginClaims(id, nowMs), SigningKey(env))
  }

  /**
   * `jwt.verify(token, process.env.JWT_SECRET)`: fails without a key, on a
   * token that does not decode under the key, and once the clock has reached
   * `exp`; otherwise gives the decoded claims.
   */
  function Verify(c: TokenCodec, token: string, env: Option<string>, nowMs: nat): (r: Option<Claims>)
    ensures r.Some? ==> VerifyingKey(env).Some? && c.decode(token, VerifyingKey(env).value) == r
    ensures r.Some? ==> Seconds(nowMs) < r.value.exp
    ensures && VerifyingKey(env).Some?
            && c.decode(token, VerifyingKey(env).value).Some?
            && Seconds(nowMs) < c.decode(token, VerifyingKey(env).value).value.exp
            ==> r == c.decode(token, VerifyingKey(env).value)
  {
    match VerifyingKey(env)
    case None => None
    case Some(k) =>
      match c.decode(token, k)
      case None => None
      case Some(cl) => if Seconds(nowMs) >= cl.exp then None else Some(cl)
  }

  /**
   * A token issued at `issuedMs` is accepted at `nowMs` exactly when the
   * secret is set and less than an hour (in jsonwebtoken's whole seconds)
   * has passed; it then yields the claims it was issued with.
   */
  lemma VerifyIssued(c: TokenCodec, id: nat, env: Option<string>, issuedMs: nat, nowMs: nat)
    requires SoundCodec(c)
    ensures Verify(c, Issue(c, id, env, issuedMs), env, nowMs)
         == if VerifyingKey(env).Some? && Seconds(nowMs) < Seconds(issuedMs) + TokenLifetime
            then Some(LoginClaims(id, issuedMs)) else None
  {
    if VerifyingKey(env).Some? {
      assert c.decode(c.sign(LoginClaims(id, issuedMs), SigningKey(env)), SigningKey(env))
          == Some(LoginClaims(id, issuedMs));
    }
  }

  /** With `JWT_SECRET` unset or empty, no token verifies, including the ones login signs with "secret". */
  lemma NoSecretNothingVerifies(c: TokenCodec, token: string, env: Option<string>, nowMs: nat)
    requires env.None? || env.value == ""
    ensures Verify(c, token, env, nowMs).None?
  {
  }
}
