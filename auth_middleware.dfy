/**
 * The two route guards: `requireAuth` reads `Authorization: Bearer
 * <token>`, verifies the token and stores its payload on the request;
 * `requireAdmin` runs it and then demands the `admin` role.
 */
module AuthMiddleware {
  import opened Wrappers
  import opened JsText
  import opened Json
  import opened JsonWrite
  import Base64Url
  import Utf8
  import Jwt
  import Credentials

  const TokenRequired := "Authorization token required"
  const InvalidToken := "Invalid or expired token"
  const AdminRequired := "Administrator access required"

  /** What a guard does with the request: pass it on with `next()`, or answer it. */
  datatype Outcome = Next | Rejected(status: nat, message: string)

  /** `const [scheme, token] = (authorization || '').split(' ')`, accepted when the scheme is `Bearer` and the token is not empty. */
  function BearerToken(authorization: Option<string>): Option<string> {
    var parts := Split(authorization.GetOr(""), ' ');
    var token := if |parts| > 1 then parts[1] else "";
    if parts[0] != "Bearer" || token == "" then None else Some(token)
  }

  /** `requireAuth` on the header and the request's current user: the outcome and the user afterwards. */
  function Authenticate(authorization: Option<string>, user: Option<Json>, env: Option<string>, hmac: Jwt.Hmac, now: int)
    : (Outcome, Option<Json>)
  {
    match BearerToken(authorization)
    case None => (Rejected(401, TokenRequired), user)
    case Some(token) =>
      match Jwt.Verify(Some(token), env, hmac, now)
      case Err(_) => (Rejected(401, InvalidToken), user)
      case Ok(payload) => (Next, Some(payload))
  }

  /** `req.user?.role === 'admin'`. */
  predicate IsAdmin(user: Option<Json>) {
    user.Some? && Lookup(user.value, "role") == Some(JString("admin"))
  }

  /** `requireAdmin`: `requireAuth`, then the role check in place of `next`. */
  function Authorize(authorization: Option<string>, user: Option<Json>, env: Option<string>, hmac: Jwt.Hmac, now: int)
    : (Outcome, Option<Json>)
  {
    var (outcome, user2) := Authenticate(authorization, user, env, hmac, now);
    if outcome.Rejected? then (outcome, user2)
    else if !IsAdmin(user2) then (Rejected(403, AdminRequired), user2)
    else (Next, user2)
  }

  /** The part of an Express request the guards read and write. */
  class Request {
    const authorization: Option<string>
    var user: Option<Json>

    constructor (authorization: Option<string>)
      ensures this.authorization == authorization && user == None
    {
      this.authorization := authorization;
      user := None;
    }

    /** `requireAuth(req, res, next)`. */
    method RequireAuth(env: Option<string>, hmac: Jwt.Hmac, now: int) returns (outcome: Outcome)
      modifies this
      ensures (outcome, user) == Authenticate(authorization, old(user), env, hmac, now)
    {
      var parts := Split(authorization.GetOr(""), ' ');
      var scheme := parts[0];
      var token := if |parts| > 1 then parts[1] else "";
      if scheme != "Bearer" || token == "" {
        return Rejected(401, TokenRequired);
      }
      var verified := Jwt.Verify(Some(token), env, hmac, now);
      if verified.Err? {
        return Rejected(401, InvalidToken);
      }
      user := Some(verified.value);
      return Next;
    }

    /** `requireAdmin(req, res, next)`. */
    method RequireAdmin(env: Option<string>, hmac: Jwt.Hmac, now: int) returns (outcome: Outcome)
      modifies this
      ensures (outcome, user) == Authorize(authorization, old(user), env, hmac, now)
    {
      outcome := RequireAuth(env, hmac, now);
      if outcome.Rejected? {
        return;
      }
      if !IsAdmin(user) {
        outcome := Rejected(403, AdminRequired);
      }
    }
  }

  // ---------------------------------------------------------------------
  // The header
  // ---------------------------------------------------------------------

  /** A joined list of parts starts with its first part. */
  lemma JoinStart(parts: seq<string>, sep: char)
    requires |parts| >= 1
    ensures StartsWith(Join(parts, sep), parts[0])
  {
    if |parts| > 1 {
      assert Join(parts, sep) == parts[0] + ([sep] + Join(parts[1..], sep));
    }
  }

  predicate NoSpace(s: string) {
    forall i :: 0 <= i < |s| ==> s[i] != ' '
  }

  /** An accepted header is `Bearer `, then the token, which is not empty and has no space. */
  lemma BearerTokenShape(authorization: Option<string>, token: string)
    requires BearerToken(authorization) == Some(token)
    ensures token != "" && NoSpace(token)
    ensures StartsWith(authorization.GetOr(""), "Bearer " + token)
  {
    var h := authorization.GetOr("");
    var parts := Split(h, ' ');
    assert parts[1] == token;
    SplitJoin(h, ' ');
    JoinStart(parts[1..], ' ');
    assert Join(parts, ' ') == "Bearer" + ([' '] + Join(parts[1..], ' '));
    assert h[..|"Bearer " + token|] == "Bearer " + token;
  }

  /** `Bearer ` and a token without spaces is accepted, and so is anything after a further space. */
  lemma BearerTokenOf(token: string, rest: string)
    requires token != "" && NoSpace(token)
    ensures BearerToken(Some("Bearer " + token)) == Some(token)
    ensures BearerToken(Some("Bearer " + token + " " + rest)) == Some(token)
  {
    assert "Bearer " + token == "Bearer" + [' '] + token;
    SplitAfterPart("Bearer", ' ', token);
    SplitWithoutSeparator(token, ' ');
    assert "Bearer " + token + " " + rest == "Bearer" + [' '] + (token + [' '] + rest);
    SplitAfterPart("Bearer", ' ', token + [' '] + rest);
    SplitAfterPart(token, ' ', rest);
  }

  // ---------------------------------------------------------------------
  // The guards
  // ---------------------------------------------------------------------

  /**
   * `requireAuth` passes the request on exactly when the header carries a
   * bearer token that verifies, and then the user is the token's payload;
   * otherwise it answers 401, telling a missing token from a bad one, and
   * the user is left alone.
   */
  lemma AuthenticateDecisions(authorization: Option<string>, user: Option<Json>, env: Option<string>, hmac: Jwt.Hmac, now: int)
    ensures var (outcome, user2) := Authenticate(authorization, user, env, hmac, now);
      var token := BearerToken(authorization);
      (outcome == Next <==> token.Some? && Jwt.Verify(token, env, hmac, now).Ok?)
      && (outcome == Next ==> user2 == Some(Jwt.Verify(token, env, hmac, now).value))
      && (outcome == Rejected(401, TokenRequired) <==> token.None?)
      && (outcome == Rejected(401, InvalidToken) <==> token.Some? && Jwt.Verify(token, env, hmac, now).Err?)
      && (outcome != Next ==> user2 == user)
  {
  }

  /**
   * `requireAdmin` passes the request on exactly when `requireAuth` would
   * and the payload's role is `admin`; an authenticated non-admin gets 403,
   * and every 401 of `requireAuth` stands.
   */
  lemma AuthorizeDecisions(authorization: Option<string>, user: Option<Json>, env: Option<string>, hmac: Jwt.Hmac, now: int)
    ensures var (outcome, user2) := Authorize(authorization, user, env, hmac, now);
      var (authOutcome, authUser) := Authenticate(authorization, user, env, hmac, now);
      (outcome == Next <==> authOutcome == Next && IsAdmin(authUser))
      && (outcome == Rejected(403, AdminRequired) <==> authOutcome == Next && !IsAdmin(authUser))
      && (authOutcome.Rejected? ==> outcome == authOutcome)
      && user2 == authUser
  {
  }

  // ---------------------------------------------------------------------
  // Tokens from the credential store
  // ---------------------------------------------------------------------

  /** URL-safe base64 text has no space. */
  lemma UrlEncodedNoSpace(bs: seq<Utf8.Byte>)
    ensures NoSpace(Base64Url.UrlEncode(bs))
  {
    Base64Url.UrlEncodeText(bs);
  }

  /** A signed token is URL-safe base64 text and dots: it has no space. */
  lemma SignedTokenNoSpace(payload: seq<(string, Scalar)>, now: int, expiresIn: Option<int>, env: Option<string>,
                           hmac: Jwt.Hmac, token: string)
    requires Jwt.Sign(payload, now, expiresIn, env, hmac) == Ok(token)
    ensures token != "" && NoSpace(token)
  {
    var header := Jwt.EncodeJson(Jwt.Header);
    var body := Jwt.EncodeJson(Jwt.Claims(payload, now, expiresIn));
    var signature := Jwt.CreateSignature(header, body, env.value, hmac);
    UrlEncodedNoSpace(Utf8.Encode(ObjectText(Jwt.Header)));
    UrlEncodedNoSpace(Utf8.Encode(ObjectText(Jwt.Claims(payload, now, expiresIn))));
    UrlEncodedNoSpace(hmac(Utf8.Encode(env.value), Utf8.Encode(header + "." + body)));
    assert token == header + "." + body + "." + signature;
    JoinedNoSpace(header, body, signature);
  }

  lemma JoinedNoSpace(a: string, b: string, c: string)
    requires NoSpace(a) && NoSpace(b) && NoSpace(c)
    ensures NoSpace(a + "." + b + "." + c)
  {
  }

  /** The role claim of a token response is the stored user's role. */
  lemma ClaimsRole(u: Credentials.User, now: int)
    ensures Lookup(ObjectJson(Jwt.Claims(Credentials.TokenClaims(u), now, None)), "role") == Some(JString(u.role))
  {
    var claims := Credentials.TokenClaims(u);
    Credentials.ClaimsDistinct(u);
    Jwt.ClaimsContent(claims, now, None);
    Jwt.LastMemberAt(ObjectJson(claims).members, "role", 2);
  }

  /** A header that carries a token which verifies passes `requireAuth`, and `requireAdmin` when the payload's role is `admin`. */
  lemma VerifiedTokenAdmitted(token: string, payload: Json, user: Option<Json>, env: Option<string>, hmac: Jwt.Hmac, now: int)
    requires token != "" && NoSpace(token)
    requires Jwt.Verify(Some(token), env, hmac, now) == Ok(payload)
    ensures Authenticate(Some("Bearer " + token), user, env, hmac, now) == (Next, Some(payload))
    ensures Authorize(Some("Bearer " + token), user, env, hmac, now).0 == Next <==> Lookup(payload, "role") == Some(JString("admin"))
  {
    BearerTokenOf(token, "");
  }

  /**
   * The token a successful login returns, sent back as `Bearer <token>`
   * before it expires, gets past `requireAuth` with the user's claims,
   * and past `requireAdmin` exactly when the user is an administrator.
   */
  lemma LoginTokenAdmitted(t: Credentials.UsersTable, emailIn: Option<string>, passwordIn: Option<string>,
                           derive: Credentials.KeyDerivation, now: int, env: Option<string>, hmac: Jwt.Hmac,
                           reply: Credentials.AuthReply, user: Option<Json>, later: int)
    requires Jwt.IsDigest(hmac)
    requires reply == Credentials.Login(t, emailIn, passwordIn, derive, false, now, env, hmac) && reply.Authenticated?
    requires now + Jwt.DefaultExpirySeconds != 0 && later <= now + Jwt.DefaultExpirySeconds
    ensures reply.token != "" && NoSpace(reply.token)
    ensures Authenticate(Some("Bearer " + reply.token), user, env, hmac, later).0 == Next
    ensures Authorize(Some("Bearer " + reply.token), user, env, hmac, later).0 == Next <==> reply.user.role == "admin"
  {
    Credentials.LoginSucceeds(t, emailIn, passwordIn, derive, false, now, env, hmac);
    Credentials.LoginToken(t, emailIn, passwordIn, derive, false, now, env, hmac, later);
    var u := Credentials.Find(t.rows, Credentials.ByEmail(Credentials.NormalizeEmail(emailIn))).value;
    var payload := ObjectJson(Jwt.Claims(Credentials.TokenClaims(u), now, None));
    SignedTokenNoSpace(Credentials.TokenClaims(u), now, None, env, hmac, reply.token);
    ClaimsRole(u, now);
    VerifiedTokenAdmitted(reply.token, payload, user, env, hmac, later);
  }
}
