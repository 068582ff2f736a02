/**
 * The login route and the `verifyToken` middleware: password check, token issue, and the
 * bearer-token gate in front of every snippet route.
 */
module Auth {
  import opened Wrappers
  import JsString
  import Jwt
  import opened Http

  /** `bcrypt.compare(password, PAGE_PASSWORD_HASH)`, with the stored hash bound in. */
  type PasswordCheck = string -> bool

  /**
   * The process environment the routes read, `None` where a variable is unset, and the
   * keyed hash the token library signs and verifies with.
   */
  datatype Config = Config(passwordHash: Option<PasswordCheck>, jwtSecret: Option<Jwt.Secret>, hmac: Jwt.Mac)

  /** The fixed claim every issued token carries: `{ access: 'granted' }`. */
  const GrantedAccess: string := "granted"

  /** JavaScript truthiness of a string-valued body field: present and not `""`. */
  predicate IsTruthy(v: Option<string>) {
    v.Some? && v.value != ""
  }

  /**
   * `POST /auth/login`. A missing or empty password is 400; a password the hash does not
   * match is 401; a match yields a token carrying `access: 'granted'` that expires seven days
   * after the current second. A missing hash or signing secret makes the library throw: 500.
   */
  function Login(config: Config, password: Option<string>, nowMs: nat): (r: Response)
    ensures r.status in {200, 400, 401, 500}
    ensures r.status == 400 <==> !IsTruthy(password)
    ensures r.status == 401 <==> IsTruthy(password) && config.passwordHash.Some?
                                 && !config.passwordHash.value(password.value)
    ensures r.status == 200 <==> IsTruthy(password) && config.passwordHash.Some?
                                 && config.passwordHash.value(password.value) && config.jwtSecret.Some?
    ensures r.status == 200 ==>
              r.body.TokenIssued? && JsString.Omits(r.body.token, ' ')
              && Jwt.Decode(r.body.token) == Some(Jwt.Sign(GrantedAccess, config.jwtSecret.value, config.hmac, nowMs))
    ensures r.status != 200 ==> !r.body.TokenIssued?
  {
    if !IsTruthy(password) then
      Response(400, Message(PasswordRequired))
    else
      match config.passwordHash
      case None => Response(500, ErrorMessage)
      case Some(matches) =>
        if !matches(password.value) then
          Response(401, Message(InvalidCredentials))
        else
          match config.jwtSecret
          case None => Response(500, ErrorMessage)
          case Some(key) =>
            var t := Jwt.Sign(GrantedAccess, key, config.hmac, nowMs);
            Jwt.DecodeEncode(t);
            Jwt.EncodeHasNoSpace(t);
            Response(200, TokenIssued(Jwt.Encode(t)))
  }

  /** A missing or empty password is answered the same way whatever the configuration and the time. */
  lemma MissingPasswordNeverCompared(c1: Config, c2: Config, password: Option<string>, t1: nat, t2: nat)
    requires !IsTruthy(password)
    ensures Login(c1, password, t1) == Login(c2, password, t2) == Response(400, Message(PasswordRequired))
  {
  }

  /**
   * `authHeader && authHeader.split(' ')[1]`: no header gives no token; a header with no
   * space gives no token; an empty header is falsy and is itself the token `""`; otherwise
   * the token is the text between the first and the second space.
   */
  function BearerToken(authorization: Option<string>): (token: Option<string>)
    ensures token.None? <==> authorization.None? || (authorization.value != "" && JsString.Omits(authorization.value, ' '))
    ensures token.Some? ==> JsString.Omits(token.value, ' ')
    ensures authorization == Some("") ==> token == Some("")
    ensures authorization.Some? && authorization.value != "" && token.Some?
            ==> var pieces := JsString.Split(authorization.value, ' ');
                |pieces| >= 2 && token.value == pieces[1]
  {
    match authorization
    case None => None
    case Some(header) =>
      if header == "" then Some("")
      else
        var pieces := JsString.Split(header, ' ');
        JsString.SplitPieces(header, ' ');
        if |pieces| >= 2 then Some(pieces[1]) else None
  }

  /** The header the client builds, `Bearer ${token}`, hands the middleware back exactly that token. */
  lemma BearerRoundTrip(token: string)
    requires JsString.Omits(token, ' ')
    ensures BearerToken(Some("Bearer " + token)) == Some(token)
  {
    assert "Bearer " + token == JsString.Join(["Bearer", token], ' ');
    JsString.SplitJoin(["Bearer", token], ' ');
  }

  /** The middleware's verdict: proceed with the decoded claims, or answer with a status. */
  datatype Decision = Admit(claims: Jwt.Token) | Reject(status: nat)

  /**
   * `verifyToken`: 401 exactly when no token is presented; 403 for a presented token that
   * does not parse, is signed with another secret, or is expired; otherwise the request
   * proceeds with the token's claims.
   */
  function Gate(secret: Option<Jwt.Secret>, mac: Jwt.Mac, authorization: Option<string>, nowMs: nat): (d: Decision)
    ensures d.Reject? ==> d.status == 401 || d.status == 403
    ensures d == Reject(401) <==> BearerToken(authorization).None?
    ensures d.Admit? <==>
              var token := BearerToken(authorization);
              token.Some? &&
              var claims := Jwt.Decode(token.value);
              claims.Some? && secret.Some? && Jwt.SignedWith(claims.value, secret.value, mac)
              && nowMs / 1000 < claims.value.exp
    ensures d.Admit? ==> Some(d.claims) == Jwt.Decode(BearerToken(authorization).value)
  {
    match BearerToken(authorization)
    case None => Reject(401)
    case Some(token) =>
      match Jwt.Verify(token, secret, mac, nowMs)
      case Err(_) => Reject(403)
      case Ok(claims) => Admit(claims)
  }

  /**
   * The header shapes at the edge of the split: no header, or a bare `Bearer`, presents no
   * token and is unauthorized; `Bearer ` with nothing after the space, or an empty header,
   * presents the empty token, which does not parse and is forbidden.
   */
  lemma HeaderEdgeCases(secret: Option<Jwt.Secret>, mac: Jwt.Mac, nowMs: nat)
    ensures Gate(secret, mac, None, nowMs) == Reject(401)
    ensures Gate(secret, mac, Some("Bearer"), nowMs) == Reject(401)
    ensures Gate(secret, mac, Some("Bearer "), nowMs) == Reject(403)
    ensures Gate(secret, mac, Some(""), nowMs) == Reject(403)
  {
    assert JsString.Omits("Bearer", ' ');
    assert "Bearer " == "Bearer" + [' '] + "";
    JsString.SplitFirstPiece("Bearer", ' ', "");
  }

  /**
   * A well-formed token presented as `Bearer <token>` is admitted exactly when its signature
   * is the configured secret's tag over its claims and it is unexpired, and is otherwise forbidden, never unauthorized.
   */
  lemma GatePresentedToken(t: Jwt.Token, secret: Option<Jwt.Secret>, mac: Jwt.Mac, nowMs: nat)
    requires Jwt.WellFormed(t)
    ensures Gate(secret, mac, Some("Bearer " + Jwt.Encode(t)), nowMs)
            == if secret.Some? && Jwt.SignedWith(t, secret.value, mac) && nowMs / 1000 < t.exp
               then Admit(t) else Reject(403)
  {
    Jwt.EncodeHasNoSpace(t);
    Jwt.DecodeEncode(t);
    BearerRoundTrip(Jwt.Encode(t));
  }

  /**
   * The token a successful login returns opens the gate of the same configuration until the
   * start of the second seven days after the login second, and is forbidden from then on.
   */
  lemma LoginTokenOpensGate(config: Config, password: Option<string>, loginMs: nat, nowMs: nat)
    requires IsTruthy(password) && config.passwordHash.Some? && config.jwtSecret.Some?
    requires config.passwordHash.value(password.value)
    ensures var header := Some("Bearer " + Login(config, password, loginMs).body.token);
      Gate(config.jwtSecret, config.hmac, header, nowMs)
      == if nowMs < (loginMs / 1000 + Jwt.SevenDays) * 1000
         then Admit(Jwt.Sign(GrantedAccess, config.jwtSecret.value, config.hmac, loginMs))
         else Reject(403)
  {
    var token := Login(config, password, loginMs).body.token;
    BearerRoundTrip(token);
  }

  /**
   * A login token whose claims were edited (say, `exp` pushed forward) while its signature
   * was kept, or whose signature was replaced, is forbidden at every time, provided tags do
   * not collide.
   */
  lemma TamperedTokenForbidden(config: Config, loginMs: nat, forged: Jwt.Token, nowMs: nat)
    requires config.jwtSecret.Some? && Jwt.CollisionFree(config.hmac) && Jwt.WellFormed(forged)
    requires var t := Jwt.Sign(GrantedAccess, config.jwtSecret.value, config.hmac, loginMs);
      forged != t && (forged.signature == t.signature
                      || (forged.access == t.access && forged.iat == t.iat && forged.exp == t.exp))
    ensures Gate(config.jwtSecret, config.hmac, Some("Bearer " + Jwt.Encode(forged)), nowMs) == Reject(403)
  {
    Jwt.TamperedRejected(GrantedAccess, config.jwtSecret.value, config.hmac, loginMs, forged, nowMs);
    GatePresentedToken(forged, config.jwtSecret, config.hmac, nowMs);
  }
}
