/**
 * The browser's session store: the token and the user object kept in
 * `localStorage` under two keys, the queries the pages make of them, and
 * the `Authorization` header the pages send.
 */
module ClientAuth {
  import opened Wrappers
  import opened Json
  import opened JsonWrite
  import AuthMiddleware
  import Jwt
  import Credentials

  const TokenKey := "auth_token"
  const UserKey := "auth_user"
  const AuthorizationHeader := "Authorization"

  // The queries, over the contents of `localStorage`.

  /** `getAuthToken`: `localStorage.getItem('auth_token')`. */
  function TokenOf(entries: map<string, string>): Option<string> {
    if TokenKey in entries then Some(entries[TokenKey]) else None
  }

  /** `getAuthUser`: the parsed user entry; `None` stands for the `null` returned when it is absent, empty or not JSON. */
  function UserOf(entries: map<string, string>): Option<Json> {
    if UserKey !in entries || entries[UserKey] == "" then None else Parse(entries[UserKey])
  }

  /** `isAuthenticated`: `Boolean(getAuthToken())`. */
  predicate IsAuthenticated(entries: map<string, string>) {
    TokenOf(entries).Some? && TokenOf(entries).value != ""
  }

  /** `isAdmin`: `getAuthUser()?.role === 'admin'`, the test `requireAdmin` applies to the payload. */
  predicate IsAdmin(entries: map<string, string>) {
    AuthMiddleware.IsAdmin(UserOf(entries))
  }

  /** `getAuthHeaders`: `Authorization: Bearer <token>` when a token is stored, no header otherwise. */
  function HeadersOf(entries: map<string, string>): map<string, string> {
    var token := TokenOf(entries);
    if token.Some? && token.value != "" then map[AuthorizationHeader := "Bearer " + token.value] else map[]
  }

  // The updates.

  /** `setAuthSession(token, user)`: the token always, the user only when one is given. */
  function WithSession(entries: map<string, string>, token: string, user: Option<seq<(string, Scalar)>>): map<string, string> {
    var e := entries[TokenKey := token];
    if user.Some? then e[UserKey := ObjectText(user.value)] else e
  }

  /** `localStorage` as the module uses it. */
  class LocalStore {
    var entries: map<string, string>

    constructor ()
      ensures entries == map[]
    {
      entries := map[];
    }

    /** `setAuthSession(token, user)`. */
    method SetAuthSession(token: string, user: Option<seq<(string, Scalar)>>)
      modifies this
      ensures entries == WithSession(old(entries), token, user)
    {
      entries := entries[TokenKey := token];
      if user.Some? {
        entries := entries[UserKey := ObjectText(user.value)];
      }
    }

    /** `setAuthUser(user)`. */
    method SetAuthUser(user: seq<(string, Scalar)>)
      modifies this
      ensures entries == old(entries)[UserKey := ObjectText(user)]
    {
      entries := entries[UserKey := ObjectText(user)];
    }

    /** `clearAuthToken`: `localStorage.clear()`, which empties every key, not only the two above. */
    method ClearAuthToken()
      modifies this
      ensures entries == map[]
    {
      entries := map[];
    }
  }

  // Properties.

  /** Any JSON object text is non-empty. */
  lemma ObjectTextNonEmpty(ms: seq<(string, Scalar)>)
    ensures ObjectText(ms) != ""
  {
    ObjectRoundTrip(ms);
  }

  /**
   * After `setAuthSession` the stored token is the one given; the user
   * reads back as the object given, or stays what it was when none was
   * given; the other keys are untouched.
   */
  lemma SessionReadBack(entries: map<string, string>, token: string, user: Option<seq<(string, Scalar)>>)
    ensures var e := WithSession(entries, token, user);
      TokenOf(e) == Some(token)
      && (user.Some? ==> UserOf(e) == Some(ObjectJson(user.value)))
      && (user.None? ==> UserOf(e) == UserOf(entries))
      && forall k :: k != TokenKey && k != UserKey ==> (k in e <==> k in entries) && (k in entries ==> e[k] == entries[k])
  {
    if user.Some? {
      ObjectTextNonEmpty(user.value);
      ObjectRoundTrip(user.value);
    }
  }

  /** After `setAuthUser` the user reads back as the object stored; the token is untouched. */
  lemma UserReadBack(entries: map<string, string>, user: seq<(string, Scalar)>)
    ensures UserOf(entries[UserKey := ObjectText(user)]) == Some(ObjectJson(user))
    ensures TokenOf(entries[UserKey := ObjectText(user)]) == TokenOf(entries)
  {
    ObjectTextNonEmpty(user);
    ObjectRoundTrip(user);
  }

  /** After `clearAuthToken` nobody is signed in and no header is sent. */
  lemma ClearedSignedOut()
    ensures TokenOf(map[]) == None && UserOf(map[]) == None
    ensures !IsAuthenticated(map[]) && !IsAdmin(map[]) && HeadersOf(map[]) == map[]
  {
  }

  /** A header is sent exactly when the store is authenticated, and it carries the stored token. */
  lemma HeadersWhenAuthenticated(entries: map<string, string>)
    ensures AuthorizationHeader in HeadersOf(entries) <==> IsAuthenticated(entries)
    ensures IsAuthenticated(entries) ==> HeadersOf(entries)[AuthorizationHeader] == "Bearer " + entries[TokenKey]
    ensures |HeadersOf(entries)| <= 1
  {
  }

  /** The header the pages send is the one `requireAuth` parses back to the stored token, when it has no space. */
  lemma HeadersParsedByServer(entries: map<string, string>)
    requires IsAuthenticated(entries) && AuthMiddleware.NoSpace(entries[TokenKey])
    ensures AuthMiddleware.BearerToken(Some(HeadersOf(entries)[AuthorizationHeader])) == Some(entries[TokenKey])
  {
    AuthMiddleware.BearerTokenOf(entries[TokenKey], "");
  }

  /**
   * The client is an administrator after storing a user object exactly
   * when that object's last `role` member is the string `admin`.
   */
  lemma AdminAfterSession(entries: map<string, string>, token: string, user: seq<(string, Scalar)>)
    ensures IsAdmin(WithSession(entries, token, Some(user))) <==> Lookup(ObjectJson(user), "role") == Some(JString("admin"))
    ensures IsAuthenticated(WithSession(entries, token, Some(user))) <==> token != ""
  {
    SessionReadBack(entries, token, Some(user));
  }

  /** The `user` object of a login or registration reply, as the page receives it. */
  function UserObject(v: Credentials.UserView): seq<(string, Scalar)> {
    [("id", SInt(v.id)), ("email", SStr(v.email)), ("role", SStr(v.role))]
  }

  /**
   * After a successful login the page stores the reply; the header it then
   * sends passes `requireAuth` until the token expires, and the client's
   * own admin test agrees with `requireAdmin`.
   */
  lemma LoginSessionAdmitted(t: Credentials.UsersTable, emailIn: Option<string>, passwordIn: Option<string>,
                             derive: Credentials.KeyDerivation, now: int, env: Option<string>, hmac: Jwt.Hmac,
                             reply: Credentials.AuthReply, entries: map<string, string>, user: Option<Json>, later: int)
    requires Jwt.IsDigest(hmac)
    requires reply == Credentials.Login(t, emailIn, passwordIn, derive, false, now, env, hmac) && reply.Authenticated?
    requires now + Jwt.DefaultExpirySeconds != 0 && later <= now + Jwt.DefaultExpirySeconds
    ensures var e := WithSession(entries, reply.token, Some(UserObject(reply.user)));
      var header := "Bearer " + reply.token;
      IsAuthenticated(e) && HeadersOf(e) == map[AuthorizationHeader := header]
      && AuthMiddleware.Authenticate(Some(header), user, env, hmac, later).0 == AuthMiddleware.Next
      && (AuthMiddleware.Authorize(Some(header), user, env, hmac, later).0 == AuthMiddleware.Next <==> IsAdmin(e))
  {
    AuthMiddleware.LoginTokenAdmitted(t, emailIn, passwordIn, derive, now, env, hmac, reply, user, later);
    StoredReply(entries, reply.token, reply.user);
  }

  /** Storing a non-empty token and a reply's user object signs the client in, as an administrator exactly when the role is `admin`. */
  lemma StoredReply(entries: map<string, string>, token: string, v: Credentials.UserView)
    requires token != ""
    ensures var e := WithSession(entries, token, Some(UserObject(v)));
      IsAuthenticated(e) && HeadersOf(e) == map[AuthorizationHeader := "Bearer " + token]
      && (IsAdmin(e) <==> v.role == "admin")
  {
    AdminAfterSession(entries, token, UserObject(v));
    LastRole(v);
  }

  /** The role of a reply's user object is the user's role. */
  lemma LastRole(v: Credentials.UserView)
    ensures Lookup(ObjectJson(UserObject(v)), "role") == Some(JString(v.role))
  {
    Jwt.LastMemberAt(ObjectJson(UserObject(v)).members, "role", 2);
  }
}
