/**
 * The route guard: take the second space-separated field of the
 * `Authorization` header as the token, refuse with 401 when there is none,
 * refuse with 400 when jsonwebtoken rejects it, and otherwise attach the
 * decoded claims to the request and pass it on.
 */
module AuthMiddleware {
  import opened Options
  import opened Errors
  import opened JsStrings
  import opened Crypto

  const AccessDenied := Response(401, ErrorBody("Access denied."))
  const InvalidToken := Response(400, ErrorBody("Invalid token."))

  /**
   * `req.header("Authorization")?.split(" ")[1]`: nothing when the header is
   * missing or has no second field. The first field is not looked at.
   */
  function TokenOf(header: Option<string>): (t: Option<string>)
    ensures t.Some? ==> header.Some? && SpaceFree(t.value)
  {
    if header.None? then None
    else
      var fields := Split(header.value);
      if |fields| < 2 then None
      else
        assert fields[1] in fields;
        Some(fields[1])
  }

  /** The guard's answer: a response and a stop, or the claims and a call to `next`. */
  datatype Decision = Deny(response: Response) | Proceed(user: Claims)

  /** What `authMiddleware` decides for a header, the environment's secret and the clock. */
  function Decide(header: Option<string>, env: Option<string>, c: TokenCodec, nowMs: nat): (d: Decision)
    ensures d.Deny? ==> d.response == AccessDenied || d.response == InvalidToken
    ensures d.Proceed? ==> TokenOf(header).Some? && Verify(c, TokenOf(header).value, env, nowMs) == Some(d.user)
  {
    var token := TokenOf(header);
    if token.None? || token.value == [] then Deny(AccessDenied)
    else
      match Verify(c, token.value, env, nowMs)
      case None => Deny(InvalidToken)
      case Some(claims) => Proceed(claims)
  }

  /**
   * Every request gets exactly one of the three outcomes: 401 without a
   * token, 400 for a token jsonwebtoken rejects, and otherwise the claims
   * the token verifies to.
   */
  lemma ThreeOutcomes(header: Option<string>, env: Option<string>, c: TokenCodec, nowMs: nat)
    ensures var d := Decide(header, env, c, nowMs);
            && (d == Deny(AccessDenied) <==> TokenOf(header).None? || TokenOf(header).value == [])
            && (d == Deny(InvalidToken) <==> TokenOf(header).Some? && TokenOf(header).value != []
                                             && Verify(c, TokenOf(header).value, env, nowMs).None?)
            && (d.Proceed? <==> TokenOf(header).Some? && TokenOf(header).value != []
                                && Verify(c, TokenOf(header).value, env, nowMs).Some?)
            && (d.Proceed? ==> Some(d.user) == Verify(c, TokenOf(header).value, env, nowMs))
  {
  }

  /** A missing header, or one without a space, is refused with 401. */
  lemma NoSecondFieldDenied(header: Option<string>, env: Option<string>, c: TokenCodec, nowMs: nat)
    requires header.None? || SpaceFree(header.value)
    ensures Decide(header, env, c, nowMs) == Deny(AccessDenied)
  {
    if header.Some? {
      SplitSpaceFree(header.value);
    }
  }

  /** Whatever word precedes the space, the field after it is the token: "Bearer" is not required. */
  lemma SchemeNotChecked(scheme: string, token: string)
    requires SpaceFree(scheme) && SpaceFree(token)
    ensures TokenOf(Some(scheme + " " + token)) == Some(token)
  {
    SplitAfterWord(scheme, token);
    SplitSpaceFree(token);
  }

  /** With `JWT_SECRET` unset or empty the guard never lets a request through. */
  lemma NoSecretNeverProceeds(header: Option<string>, env: Option<string>, c: TokenCodec, nowMs: nat)
    requires env.None? || env.value == ""
    ensures Decide(header, env, c, nowMs).Deny?
  {
    var token := TokenOf(header);
    if token.Some? {
      NoSecretNothingVerifies(c, token.value, env, nowMs);
    }
  }

  /**
   * A token issued by login, sent after any one-word scheme, passes exactly
   * when `JWT_SECRET` is set and the hour has not run out, and then carries
   * the claims login put in it; otherwise it is refused with 400.
   */
  lemma IssuedTokenDecision(c: TokenCodec, id: nat, env: Option<string>, scheme: string, issuedMs: nat, nowMs: nat)
    requires SoundCodec(c) && SpaceFree(scheme)
    ensures Decide(Some(scheme + " " + Issue(c, id, env, issuedMs)), env, c, nowMs)
         == if VerifyingKey(env).Some? && Seconds(nowMs) < Seconds(issuedMs) + TokenLifetime
            then Proceed(LoginClaims(id, issuedMs)) else Deny(InvalidToken)
  {
    var token := Issue(c, id, env, issuedMs);
    assert token != [] && ' ' !in token;
    SchemeNotChecked(scheme, token);
    VerifyIssued(c, id, env, issuedMs, nowMs);
  }

  /** With the secret set, a login token still passes half an hour later and is refused 61 minutes later. */
  lemma TokenLifetimeExamples(c: TokenCodec, id: nat, secret: string, issuedMs: nat)
    requires SoundCodec(c) && secret != ""
    ensures var header := Some("Bearer " + Issue(c, id, Some(secret), issuedMs));
            && Decide(header, Some(secret), c, issuedMs + 30 * 60 * 1000) == Proceed(LoginClaims(id, issuedMs))
            && Decide(header, Some(secret), c, issuedMs + 61 * 60 * 1000) == Deny(InvalidToken)
  {
    var token := Issue(c, id, Some(secret), issuedMs);
    assert SpaceFree("Bearer");
    assert "Bearer " + token == "Bearer" + " " + token;
    SecondsAfter(issuedMs, 30 * 60);
    SecondsAfter(issuedMs, 61 * 60);
    IssuedTokenDecision(c, id, Some(secret), "Bearer", issuedMs, issuedMs + 30 * 60 * 1000);
    IssuedTokenDecision(c, id, Some(secret), "Bearer", issuedMs, issuedMs + 61 * 60 * 1000);
  }

  /** Whole seconds later on the millisecond clock are that many seconds later on jsonwebtoken's clock. */
  lemma SecondsAfter(ms: nat, seconds: nat)
    ensures Seconds(ms + seconds * 1000) == Seconds(ms) + seconds
  {
    var q, r := ms / 1000, ms % 1000;
    assert ms + seconds * 1000 == (q + seconds) * 1000 + r;
  }

  /** One request and its response as the middleware sees them. */
  class Exchange {
    const authorization: Option<string>
    /** `req.user`. */
    var user: Option<Claims>
    /** The responses sent, in order. */
    var sent: seq<Response>
    /** How often `next()` was called. */
    var nextCalls: nat

    constructor (authorization: Option<string>)
      ensures this.authorization == authorization
      ensures user == None && sent == [] && nextCalls == 0
    {
      this.authorization := authorization;
      user, sent, nextCalls := None, [], 0;
    }
  }

  /**
   * `authMiddleware(req, res, next)`: a refusal sends one response and leaves
   * `req.user` and `next` alone; a pass sets `req.user`, calls `next` once and
   * sends nothing.
   */
  method Guard(ex: Exchange, env: Option<string>, c: TokenCodec, nowMs: nat)
    modifies ex
    ensures Decide(ex.authorization, env, c, nowMs).Deny? ==>
              && ex.sent == old(ex.sent) + [Decide(ex.authorization, env, c, nowMs).response]
              && ex.user == old(ex.user) && ex.nextCalls == old(ex.nextCalls)
    ensures Decide(ex.authorization, env, c, nowMs).Proceed? ==>
              && ex.user == Some(Decide(ex.authorization, env, c, nowMs).user)
              && ex.sent == old(ex.sent) && ex.nextCalls == old(ex.nextCalls) + 1
  {
    var token := TokenOf(ex.authorization);
    if token.None? || token.value == [] {
      ex.sent := ex.sent + [AccessDenied];
      return;
    }
    var verified := Verify(c, token.value, env, nowMs);
    if verified.None? {
      ex.sent := ex.sent + [InvalidToken];
      return;
    }
    ex.user := verified;
    ex.nextCalls := ex.nextCalls + 1;
  }
}
