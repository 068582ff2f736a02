/**
 * A stand-in for the `jsonwebtoken` library as the server uses it: `sign` with the payload
 * `{ access }` and `expiresIn: '7d'`, and `verify` against the configured secret.
 * The HMAC is a function of the secret and the claims that the model leaves uninterpreted,
 * and the base64url/JSON encoding is a '.'-joined text whose decoding is proved to invert it.
 */
module Jwt {
  import opened Wrappers
  import JsString

  /** A signing secret, `JWT_SECRET`. */
  type Secret = nat

  /** The keyed hash the library signs with (HS256): a tag over the secret and all the claims. */
  type Mac = (Secret, string, nat, nat) -> nat

  /**
   * The cryptographic assumption under which tampering is detected: no two different
   * secret-and-claims inputs share a tag.
   */
  ghost predicate CollisionFree(mac: Mac) {
    forall k1, a1, i1, e1, k2, a2, i2, e2 :: mac(k1, a1, i1, e1) == mac(k2, a2, i2, e2)
      ==> k1 == k2 && a1 == a2 && i1 == i2 && e1 == e2
  }

  /** `expiresIn: '7d'`, in seconds. */
  const SevenDays: nat := 7 * 24 * 60 * 60

  /** A signed token: the `access` claim, `iat` and `exp` in whole seconds, and its signature. */
  datatype Token = Token(access: string, iat: nat, exp: nat, signature: nat)

  /** Whether `t` carries the tag that `key` gives its claims. */
  predicate SignedWith(t: Token, key: Secret, mac: Mac) {
    t.signature == mac(key, t.access, t.iat, t.exp)
  }

  /** Claims that survive encoding: the claim text holds neither the field separator nor a space. */
  predicate WellFormed(t: Token) {
    JsString.Omits(t.access, '.') && JsString.Omits(t.access, ' ')
  }

  /** `jwt.sign({ access }, secret, { expiresIn: '7d' })` at `nowMs`: `iat` is the current whole second. */
  function Sign(access: string, secret: Secret, mac: Mac, nowMs: nat): (t: Token)
    ensures t.access == access && SignedWith(t, secret, mac)
    ensures t.iat * 1000 <= nowMs < (t.iat + 1) * 1000
    ensures t.exp - t.iat == SevenDays
  {
    var iat := nowMs / 1000;
    Token(access, iat, iat + SevenDays, mac(secret, access, iat, iat + SevenDays))
  }

  predicate IsDigit(c: char) {
    '0' <= c <= '9'
  }

  /** A non-empty run of decimal digits. */
  predicate IsNumeral(s: string) {
    s != [] && forall i :: 0 <= i < |s| ==> IsDigit(s[i])
  }

  function DigitChar(d: nat): (c: char)
    requires d < 10
    ensures IsDigit(c) && c as int - '0' as int == d
  {
    (d + '0' as int) as char
  }

  /** Decimal notation of `n`, without leading zeros. */
  function NatToString(n: nat): (s: string)
    ensures IsNumeral(s) && JsString.Omits(s, '.') && JsString.Omits(s, ' ')
  {
    if n < 10 then [DigitChar(n)] else NatToString(n / 10) + [DigitChar(n % 10)]
  }

  /** The value of a decimal numeral. */
  function ParseNat(s: string): (n: nat)
    requires forall i :: 0 <= i < |s| ==> IsDigit(s[i])
  {
    if s == [] then 0
    else
      assert IsDigit(s[|s| - 1]);
      10 * ParseNat(s[..|s| - 1]) + (s[|s| - 1] as int - '0' as int)
  }

  /** Parsing the decimal notation of a number gives back that number. */
  lemma {:induction false} ParseNatToString(n: nat)
    ensures ParseNat(NatToString(n)) == n
  {
    if n >= 10 {
      var s := NatToString(n);
      assert s[..|s| - 1] == NatToString(n / 10);
      ParseNatToString(n / 10);
    }
  }

  /** The token as text: claim, `iat`, `exp` and signature, separated by '.'. */
  function Encode(t: Token): (s: string) {
    JsString.Join([t.access, NatToString(t.iat), NatToString(t.exp), NatToString(t.signature)], '.')
  }

  /** Parses the text of a token; `None` for anything that is not four '.'-separated fields with numerals. */
  function Decode(s: string): (r: Option<Token>)
    ensures r.Some? ==> JsString.Omits(r.value.access, '.')
  {
    var parts := JsString.Split(s, '.');
    JsString.SplitPieces(s, '.');
    if |parts| == 4 && IsNumeral(parts[1]) && IsNumeral(parts[2]) && IsNumeral(parts[3]) then
      Some(Token(parts[0], ParseNat(parts[1]), ParseNat(parts[2]), ParseNat(parts[3])))
    else
      None
  }

  /** Decoding the text of a well-formed token gives back the token. */
  lemma DecodeEncode(t: Token)
    requires WellFormed(t)
    ensures Decode(Encode(t)) == Some(t)
  {
    var parts := [t.access, NatToString(t.iat), NatToString(t.exp), NatToString(t.signature)];
    JsString.SplitJoin(parts, '.');
    ParseNatToString(t.iat);
    ParseNatToString(t.exp);
    ParseNatToString(t.signature);
  }

  /** The text of a well-formed token contains no space, so it travels whole in a header. */
  lemma EncodeHasNoSpace(t: Token)
    requires WellFormed(t)
    ensures JsString.Omits(Encode(t), ' ')
  {
    var parts := [t.access, NatToString(t.iat), NatToString(t.exp), NatToString(t.signature)];
    JsString.JoinOmits(parts, '.', ' ');
  }

  /** Why `verify` calls back with an error. */
  datatype VerifyError = Malformed | SecretMissing | InvalidSignature | Expired

  /**
   * `jwt.verify(text, secret)` at `nowMs`: the text must parse, a secret must be configured,
   * the signature must be the tag the secret gives the claims as they stand, and the current
   * whole second must be before `exp`.
   */
  function Verify(text: string, secret: Option<Secret>, mac: Mac, nowMs: nat): (r: Result<Token, VerifyError>)
    ensures r.Ok? <==> Decode(text).Some? && secret.Some? && SignedWith(Decode(text).value, secret.value, mac)
                       && nowMs / 1000 < Decode(text).value.exp
    ensures r.Ok? ==> Some(r.value) == Decode(text)
  {
    match Decode(text)
    case None => Err(Malformed)
    case Some(t) =>
      if secret.None? then Err(SecretMissing)
      else if t.signature != mac(secret.value, t.access, t.iat, t.exp) then Err(InvalidSignature)
      else if nowMs / 1000 >= t.exp then Err(Expired)
      else Ok(t)
  }

  /**
   * A token signed with `key` at `issuedMs` verifies at `nowMs` exactly when the configured
   * secret gives its claims its tag and `nowMs` is before the start of the second
   * `iat + 7 days`. It is rejected from 7 days after issue on, and accepted under `key` for
   * the first 7 days less one second; when tags do not collide, `key` is the only secret
   * that accepts it.
   */
  lemma VerifySigned(access: string, key: Secret, mac: Mac, issuedMs: nat, secret: Option<Secret>, nowMs: nat)
    requires JsString.Omits(access, '.') && JsString.Omits(access, ' ')
    ensures var t := Sign(access, key, mac, issuedMs);
      Verify(Encode(t), secret, mac, nowMs).Ok?
      <==> secret.Some? && SignedWith(t, secret.value, mac) && nowMs < (t.iat + SevenDays) * 1000
    ensures nowMs >= issuedMs + SevenDays * 1000 ==> Verify(Encode(Sign(access, key, mac, issuedMs)), secret, mac, nowMs).Err?
    ensures secret == Some(key) && issuedMs <= nowMs < issuedMs + (SevenDays - 1) * 1000
            ==> Verify(Encode(Sign(access, key, mac, issuedMs)), secret, mac, nowMs).Ok?
    ensures CollisionFree(mac) && Verify(Encode(Sign(access, key, mac, issuedMs)), secret, mac, nowMs).Ok?
            ==> secret == Some(key)
  {
    var t := Sign(access, key, mac, issuedMs);
    DecodeEncode(t);
  }

  /**
   * Tampering is detected: a token that differs from one `key` issued, but keeps either its
   * signature (edited claims) or its claims (replaced signature), is rejected under `key`
   * at every time, provided tags do not collide.
   */
  lemma TamperedRejected(access: string, key: Secret, mac: Mac, issuedMs: nat, forged: Token, nowMs: nat)
    requires CollisionFree(mac) && WellFormed(forged)
    requires var t := Sign(access, key, mac, issuedMs);
      forged != t && (forged.signature == t.signature
                      || (forged.access == t.access && forged.iat == t.iat && forged.exp == t.exp))
    ensures Verify(Encode(forged), Some(key), mac, nowMs).Err?
  {
    DecodeEncode(forged);
  }
}
