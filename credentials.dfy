/**
 * The credential store: e-mail normalisation, the `salt:hash` password
 * format over scrypt (RFC 7914, a parameter here), and the register,
 * login and profile handlers over the users table.
 */
module Credentials {
  import opened Wrappers
  import opened Utf8
  import opened JsText
  import opened JsonWrite
  import opened Json
  import Jwt
  import opened PgInt4

  const SaltBytes: nat := 16
  const KeyLength: nat := 64

  /** `crypto.scryptSync(password, salt, 64)`: the password and the salt text to the derived key. */
  type KeyDerivation = (string, string) -> seq<Byte>

  /** A derivation that always yields 64 bytes, as scrypt does with a key length of 64. */
  ghost predicate IsKeyDerivation(derive: KeyDerivation) {
    forall password, salt :: |derive(password, salt)| == KeyLength
  }

  // ---------------------------------------------------------------------
  // E-mail and hexadecimal text
  // ---------------------------------------------------------------------

  /** `normalizeEmail`: `String(email || '').trim().toLowerCase()`. */
  function NormalizeEmail(email: Option<string>): string {
    ToLower(Trim(email.GetOr("")))
  }

  /** A normalised address is trimmed and lower case, so normalising it again changes nothing. */
  lemma NormalizeEmailIdempotent(email: Option<string>)
    ensures NormalizeEmail(Some(NormalizeEmail(email))) == NormalizeEmail(email)
    ensures NormalizeEmail(None) == ""
  {
    var t := Trim(email.GetOr(""));
    TrimLower(ToLower(t));
    TrimLower(t);
    TrimIdempotent(t);
    ToLowerIdempotent(t);
  }

  function HexDigit(d: nat): (c: char)
    requires d < 16
  {
    if d < 10 then ('0' as int + d) as char else ('a' as int + d - 10) as char
  }

  predicate IsLowerHex(c: char) {
    '0' <= c <= '9' || 'a' <= c <= 'f'
  }

  /** `buf.toString('hex')`: two lower-case digits per byte. */
  function HexText(bs: seq<Byte>): (s: string)
    ensures |s| == 2 * |bs|
  {
    if bs == [] then "" else [HexDigit(bs[0] / 16), HexDigit(bs[0] % 16)] + HexText(bs[1..])
  }

  /** The value of a hexadecimal digit of either case. */
  function HexValue(c: char): (v: Option<nat>)
    ensures v.Some? ==> v.value < 16
  {
    if '0' <= c <= '9' then Some(c as int - '0' as int)
    else if 'a' <= c <= 'f' then Some(c as int - 'a' as int + 10)
    else if 'A' <= c <= 'F' then Some(c as int - 'A' as int + 10)
    else None
  }

  /** `Buffer.from(s, 'hex')`: bytes from pairs of digits, stopping at the first pair that is not one, or at a lone last digit. */
  function HexDecode(s: string): (bs: seq<Byte>)
    ensures 2 * |bs| <= |s|
  {
    if |s| < 2 then []
    else
      var hi := HexValue(s[0]);
      var lo := HexValue(s[1]);
      if hi.None? || lo.None? then [] else [hi.value * 16 + lo.value] + HexDecode(s[2..])
  }

  /** Hexadecimal text is lower-case digits only. */
  lemma {:induction false} HexTextDigits(bs: seq<Byte>)
    ensures forall i :: 0 <= i < |HexText(bs)| ==> IsLowerHex(HexText(bs)[i])
  {
    if bs != [] {
      HexTextDigits(bs[1..]);
    }
  }

  /** Reading hexadecimal text gives the bytes back. */
  lemma {:induction false} HexRoundTrip(bs: seq<Byte>)
    ensures HexDecode(HexText(bs)) == bs
  {
    if bs != [] {
      var s := HexText(bs);
      assert s[2..] == HexText(bs[1..]);
      HexRoundTrip(bs[1..]);
    }
  }

  // ---------------------------------------------------------------------
  // Passwords
  // ---------------------------------------------------------------------

  /** `hashPassword`: the hexadecimal salt, `:`, and the hexadecimal key derived with that salt text. */
  function HashPassword(password: string, salt: seq<Byte>, derive: KeyDerivation): string {
    var saltText := HexText(salt);
    saltText + ":" + HexText(derive(password, saltText))
  }

  /** `verifyPassword`: both parts present, then the length test, then `timingSafeEqual`. */
  function VerifyPassword(password: string, stored: Option<string>, derive: KeyDerivation): bool {
    var parts := Split(stored.GetOr(""), ':');
    var salt := parts[0];
    var storedHash := if |parts| > 1 then parts[1] else "";
    if salt == "" || storedHash == "" then false
    else
      var storedKey := HexDecode(storedHash);
      var calculated := HexDecode(HexText(derive(password, salt)));
      if |storedKey| != |calculated| then false else storedKey == calculated
  }

  /** The two parts of a stored hash: the hexadecimal salt and key, split at the one `:`. */
  lemma HashParts(password: string, salt: seq<Byte>, derive: KeyDerivation)
    ensures var saltText := HexText(salt);
      Split(HashPassword(password, salt, derive), ':') == [saltText, HexText(derive(password, saltText))]
  {
    var saltText := HexText(salt);
    var keyText := HexText(derive(password, saltText));
    HexTextDigits(salt);
    HexTextDigits(derive(password, saltText));
    assert saltText + ":" + keyText == saltText + [':'] + keyText;
    SplitAfterPart(saltText, ':', keyText);
    SplitWithoutSeparator(keyText, ':');
  }

  /** A stored hash is 161 characters: 32 digits of salt, `:`, 128 digits of key. */
  lemma HashFormat(password: string, salt: seq<Byte>, derive: KeyDerivation)
    requires |salt| == SaltBytes && IsKeyDerivation(derive)
    ensures var h := HashPassword(password, salt, derive);
      |h| == 161 && h[32] == ':'
      && (forall i :: 0 <= i < 32 ==> IsLowerHex(h[i]))
      && (forall i :: 33 <= i < 161 ==> IsLowerHex(h[i]))
  {
    var saltText := HexText(salt);
    var keyText := HexText(derive(password, saltText));
    HexTextDigits(salt);
    HexTextDigits(derive(password, saltText));
    var h := HashPassword(password, salt, derive);
    assert forall i :: 33 <= i < 161 ==> h[i] == keyText[i - 33];
  }

  /**
   * A password is accepted exactly when both parts of the stored hash
   * are there and the key derived with the stored salt text reads as
   * the stored key.
   */
  lemma VerifyPasswordSpec(password: string, stored: Option<string>, derive: KeyDerivation)
    ensures var parts := Split(stored.GetOr(""), ':');
      VerifyPassword(password, stored, derive) <==>
        parts[0] != "" && |parts| > 1 && parts[1] != "" && HexDecode(parts[1]) == derive(password, parts[0])
  {
    var parts := Split(stored.GetOr(""), ':');
    HexRoundTrip(derive(password, parts[0]));
  }

  /** A hash made from a password accepts exactly the passwords that derive the same key with its salt. */
  lemma HashThenVerify(password: string, attempt: string, salt: seq<Byte>, derive: KeyDerivation)
    requires |salt| > 0 && IsKeyDerivation(derive)
    ensures var saltText := HexText(salt);
      (VerifyPassword(attempt, Some(HashPassword(password, salt, derive)), derive)
       <==> derive(attempt, saltText) == derive(password, saltText))
    ensures VerifyPassword(password, Some(HashPassword(password, salt, derive)), derive)
  {
    var saltText := HexText(salt);
    HashParts(password, salt, derive);
    HexRoundTrip(derive(password, saltText));
    VerifyPasswordSpec(attempt, Some(HashPassword(password, salt, derive)), derive);
    VerifyPasswordSpec(password, Some(HashPassword(password, salt, derive)), derive);
  }

  // ---------------------------------------------------------------------
  // The users table and the handlers
  // ---------------------------------------------------------------------

  datatype User = User(id: int, email: string, passwordHash: Option<string>, role: string, createdAt: int)

  /** The rows in insertion order and the next value of the `SERIAL` id sequence. */
  datatype UsersTable = UsersTable(rows: seq<User>, nextId: int)

  function IdAt(rows: seq<User>, i: nat): int
    requires i < |rows|
  {
    rows[i].id
  }

  function EmailAt(rows: seq<User>, i: nat): string
    requires i < |rows|
  {
    rows[i].email
  }

  /** Ids are unique and below the sequence; e-mail addresses are unique (`email TEXT UNIQUE`). */
  predicate ValidUsers(t: UsersTable) {
    (forall i :: 0 <= i < |t.rows| ==> IdAt(t.rows, i) < t.nextId)
    && (forall i, j :: 0 <= i < j < |t.rows| ==> IdAt(t.rows, i) != IdAt(t.rows, j))
    && (forall i, j :: 0 <= i < j < |t.rows| ==> EmailAt(t.rows, i) != EmailAt(t.rows, j))
  }

  /** `INSERT ... RETURNING`: the row is appended with the next id of the sequence. */
  function Insert(t: UsersTable, email: string, passwordHash: string, now: int): UsersTable {
    UsersTable(t.rows + [User(t.nextId, email, Some(passwordHash), "customer", now)], t.nextId + 1)
  }

  /** The column a lookup compares: `WHERE email = $1` or `WHERE id = $1`. */
  datatype Key = ByEmail(email: string) | ById(id: int)

  predicate Matches(u: User, key: Key) {
    match key
    case ByEmail(email) => u.email == email
    case ById(id) => u.id == id
  }

  /** The row a single-row `SELECT ... WHERE` returns: the first row that matches the key, or none. */
  function Find(rows: seq<User>, key: Key): (r: Option<User>)
    ensures r.Some? ==> r.value in rows && Matches(r.value, key)
    ensures r.None? <==> forall i :: 0 <= i < |rows| ==> !Matches(rows[i], key)
  {
    if rows == [] then None else if Matches(rows[0], key) then Some(rows[0]) else Find(rows[1..], key)
  }

  datatype UserView = UserView(id: int, email: string, role: string)

  datatype Profile = Profile(id: int, email: string, createdAt: int, role: string)

  datatype AuthReply =
    | Authenticated(status: nat, token: string, user: UserView)
    | ProfileFound(profile: Profile)
    | Failure(status: nat, message: string)

  const MissingCredentials := "Email and password are required"
  const ShortPassword := "Password must be at least 8 characters"
  const DuplicateEmail := "An account with this email already exists"
  const CreateFailed := "Failed to create account"
  const BadCredentials := "Invalid email or password"
  const LoginFailed := "Failed to log in"
  const UserNotFound := "User not found"
  const ProfileFailed := "Failed to load user profile"

  /** The claims `tokenResponse` signs. */
  function TokenClaims(u: User): seq<(string, Scalar)> {
    [("sub", SInt(u.id)), ("email", SStr(u.email)), ("role", SStr(u.role))]
  }

  /** `tokenResponse(user)`: a token for the user's claims and the user's public fields; signing can fail. */
  function TokenResponse(u: User, status: nat, now: int, env: Option<string>, hmac: Jwt.Hmac): Result<AuthReply, Jwt.JwtError> {
    match Jwt.Sign(TokenClaims(u), now, None, env, hmac)
    case Err(e) => Err(e)
    case Ok(token) => Ok(Authenticated(status, token, UserView(u.id, u.email, u.role)))
  }

  /**
   * PostgreSQL refuses a text parameter holding U+0000 when the statement
   * is bound, before it runs; `JSON.parse` lets `"\u0000"` through.
   */
  predicate HasNul(s: string) {
    '\0' in s
  }

  /**
   * `POST /register`: validation, then the insert, which draws an id
   * from the sequence even when the unique e-mail constraint rejects
   * it; a failure to sign leaves the new user in place.
   */
  function Register(t: UsersTable, emailIn: Option<string>, passwordIn: Option<string>, salt: seq<Byte>,
                    derive: KeyDerivation, dbFails: bool, now: int, env: Option<string>, hmac: Jwt.Hmac)
    : (UsersTable, AuthReply)
  {
    var email := NormalizeEmail(emailIn);
    var password := passwordIn.GetOr("");
    if email == "" || password == "" then (t, Failure(400, MissingCredentials))
    else if Utf16Length(password) < 8 then (t, Failure(400, ShortPassword))
    else if dbFails || HasNul(email) then (t, Failure(500, CreateFailed))
    else if Find(t.rows, ByEmail(email)).Some? then (t.(nextId := t.nextId + 1), Failure(409, DuplicateEmail))
    else
      var t2 := Insert(t, email, HashPassword(password, salt, derive), now);
      (t2, Created(TokenResponse(t2.rows[|t.rows|], 201, now, env, hmac)))
  }

  /** The reply once the row is in: the token response, or 500 when signing throws. */
  function Created(signed: Result<AuthReply, Jwt.JwtError>): AuthReply {
    if signed.Err? then Failure(500, CreateFailed) else signed.value
  }

  /** `POST /login`: one 401 for an unknown address and for a wrong password. */
  function Login(t: UsersTable, emailIn: Option<string>, passwordIn: Option<string>, derive: KeyDerivation,
                 dbFails: bool, now: int, env: Option<string>, hmac: Jwt.Hmac): AuthReply
  {
    var email := NormalizeEmail(emailIn);
    var password := passwordIn.GetOr("");
    if email == "" || password == "" then Failure(400, MissingCredentials)
    else if dbFails || HasNul(email) then Failure(500, LoginFailed)
    else
      match Find(t.rows, ByEmail(email))
      case None => Failure(401, BadCredentials)
      case Some(u) =>
        if !VerifyPassword(password, u.passwordHash, derive) then Failure(401, BadCredentials)
        else
          match TokenResponse(u, 200, now, env, hmac)
          case Err(_) => Failure(500, LoginFailed)
          case Ok(reply) => reply
  }

  /**
   * `GET /me` for the authenticated subject `sub`; a subject outside the
   * `INTEGER` range makes PostgreSQL refuse the parameter, which the
   * handler answers like any other query failure.
   */
  function Me(t: UsersTable, sub: int, dbFails: bool): AuthReply {
    if dbFails || !InInt4(sub) then Failure(500, ProfileFailed)
    else
      match Find(t.rows, ById(sub))
      case None => Failure(404, UserNotFound)
      case Some(u) => ProfileFound(Profile(u.id, u.email, u.createdAt, u.role))
  }

  /** The users table, updated in place by registration. */
  class UserStore {
    var rows: seq<User>
    var nextId: int

    function State(): UsersTable
      reads this
    {
      UsersTable(rows, nextId)
    }

    /** An empty table; the sequence starts at 1. */
    constructor ()
      ensures State() == UsersTable([], 1) && ValidUsers(State())
    {
      rows := [];
      nextId := 1;
    }

    /** `POST /register` against this table. */
    method RegisterUser(emailIn: Option<string>, passwordIn: Option<string>, salt: seq<Byte>, derive: KeyDerivation,
                        dbFails: bool, now: int, env: Option<string>, hmac: Jwt.Hmac)
      returns (reply: AuthReply)
      modifies this
      ensures (State(), reply) == Register(old(State()), emailIn, passwordIn, salt, derive, dbFails, now, env, hmac)
    {
      var email := NormalizeEmail(emailIn);
      var password := passwordIn.GetOr("");
      if email == "" || password == "" {
        return Failure(400, MissingCredentials);
      }
      if Utf16Length(password) < 8 {
        return Failure(400, ShortPassword);
      }
      var passwordHash := HashPassword(password, salt, derive);
      if dbFails || HasNul(email) {
        return Failure(500, CreateFailed);
      }
      var id := nextId;
      nextId := nextId + 1;
      if Find(rows, ByEmail(email)).Some? {
        return Failure(409, DuplicateEmail);
      }
      var u := User(id, email, Some(passwordHash), "customer", now);
      rows := rows + [u];
      assert State() == Insert(old(State()), email, passwordHash, now) && rows[|old(rows)|] == u;
      reply := Created(TokenResponse(u, 201, now, env, hmac));
    }
  }

  // ---------------------------------------------------------------------
  // Properties of the handlers
  // ---------------------------------------------------------------------

  /**
   * Registration answers 400 exactly for a missing address or password
   * or a password under 8 UTF-16 units, 409 exactly for an address
   * already taken; neither adds a row, and a new row is always a
   * customer with the normalised address and a hash of the password.
   */
  lemma RegisterDecisions(t: UsersTable, emailIn: Option<string>, passwordIn: Option<string>, salt: seq<Byte>,
                          derive: KeyDerivation, dbFails: bool, now: int, env: Option<string>, hmac: Jwt.Hmac,
                          t2: UsersTable, reply: AuthReply)
    requires (t2, reply) == Register(t, emailIn, passwordIn, salt, derive, dbFails, now, env, hmac)
    ensures var email := NormalizeEmail(emailIn);
      var password := passwordIn.GetOr("");
      reply.Failure? && reply.status == 400 <==> email == "" || password == "" || Utf16Length(password) < 8
    ensures var email := NormalizeEmail(emailIn);
      var password := passwordIn.GetOr("");
      reply == Failure(409, DuplicateEmail) <==>
        email != "" && password != "" && Utf16Length(password) >= 8 && !dbFails && !HasNul(email)
        && exists i :: 0 <= i < |t.rows| && t.rows[i].email == email
    ensures var email := NormalizeEmail(emailIn);
      var password := passwordIn.GetOr("");
      email != "" && password != "" && Utf16Length(password) >= 8 && HasNul(email) ==>
        reply == Failure(500, CreateFailed) && t2 == t
    ensures t2.rows == t.rows || t2.rows == t.rows + [User(t.nextId, NormalizeEmail(emailIn),
      Some(HashPassword(passwordIn.GetOr(""), salt, derive)), "customer", now)]
    ensures reply.Failure? && (reply.status == 400 || reply.status == 409) ==> t2.rows == t.rows
    ensures reply.Authenticated? ==> reply.status == 201 && |t2.rows| == |t.rows| + 1
  {
  }

  /** Appending an unused address under the next id keeps the table valid. */
  lemma InsertValid(t: UsersTable, email: string, passwordHash: string, now: int)
    requires ValidUsers(t) && Find(t.rows, ByEmail(email)).None?
    ensures ValidUsers(Insert(t, email, passwordHash, now))
  {
    var r := Insert(t, email, passwordHash, now).rows;
    var n := |t.rows|;
    forall i | 0 <= i < |r|
      ensures IdAt(r, i) < t.nextId + 1
    {
      if i < n {
        assert IdAt(t.rows, i) < t.nextId;
      }
    }
    forall i, j | 0 <= i < j < |r|
      ensures IdAt(r, i) != IdAt(r, j) && EmailAt(r, i) != EmailAt(r, j)
    {
      if j < n {
        assert IdAt(t.rows, i) != IdAt(t.rows, j) && EmailAt(t.rows, i) != EmailAt(t.rows, j);
      } else {
        assert IdAt(t.rows, i) < t.nextId;
        assert t.rows[i].email != email;
      }
    }
  }

  /** Registration keeps ids and addresses unique and never moves the sequence back. */
  lemma RegisterPreservesValid(t: UsersTable, emailIn: Option<string>, passwordIn: Option<string>, salt: seq<Byte>,
                               derive: KeyDerivation, dbFails: bool, now: int, env: Option<string>, hmac: Jwt.Hmac)
    requires ValidUsers(t)
    ensures ValidUsers(Register(t, emailIn, passwordIn, salt, derive, dbFails, now, env, hmac).0)
    ensures Register(t, emailIn, passwordIn, salt, derive, dbFails, now, env, hmac).0.nextId >= t.nextId
  {
    var email := NormalizeEmail(emailIn);
    var password := passwordIn.GetOr("");
    var t2 := Register(t, emailIn, passwordIn, salt, derive, dbFails, now, env, hmac).0;
    if email == "" || password == "" || Utf16Length(password) < 8 || dbFails || HasNul(email) {
      assert t2 == t;
    } else if Find(t.rows, ByEmail(email)).Some? {
      assert t2 == t.(nextId := t.nextId + 1);
      forall i | 0 <= i < |t2.rows|
        ensures IdAt(t2.rows, i) < t2.nextId
      {
        assert IdAt(t.rows, i) < t.nextId;
      }
    } else {
      assert t2 == Insert(t, email, HashPassword(password, salt, derive), now);
      InsertValid(t, email, HashPassword(password, salt, derive), now);
    }
  }

  /**
   * Login refuses an unknown address and a wrong password with the same
   * 401; an address PostgreSQL cannot take as text is a 500 instead.
   */
  lemma LoginUniform(t: UsersTable, emailIn: Option<string>, passwordIn: Option<string>, derive: KeyDerivation,
                     dbFails: bool, now: int, env: Option<string>, hmac: Jwt.Hmac)
    requires NormalizeEmail(emailIn) != "" && passwordIn.GetOr("") != "" && !dbFails
    ensures var found := Find(t.rows, ByEmail(NormalizeEmail(emailIn)));
      Login(t, emailIn, passwordIn, derive, dbFails, now, env, hmac) == Failure(401, BadCredentials) <==>
        !HasNul(NormalizeEmail(emailIn))
        && (found.None? || !VerifyPassword(passwordIn.GetOr(""), found.value.passwordHash, derive))
  {
  }

  /** The token of a token response verifies, until it expires, to the user's claims plus `iat` and `exp`. */
  lemma TokenVerifies(u: User, status: nat, now: int, env: Option<string>, hmac: Jwt.Hmac, later: int)
    requires Jwt.IsDigest(hmac)
    requires TokenResponse(u, status, now, env, hmac).Ok?
    requires now + Jwt.DefaultExpirySeconds != 0 && later <= now + Jwt.DefaultExpirySeconds
    ensures var reply := TokenResponse(u, status, now, env, hmac).value;
      reply.Authenticated? && reply.status == status && reply.user == UserView(u.id, u.email, u.role)
      && Jwt.Verify(Some(reply.token), env, hmac, later) == Ok(ObjectJson(Jwt.Claims(TokenClaims(u), now, None)))
  {
    var claims := TokenClaims(u);
    var token := Jwt.Sign(claims, now, None, env, hmac).value;
    ClaimsDistinct(u);
    Jwt.RoundTrip(claims, now, None, env, hmac, token, later);
  }

  lemma ClaimsDistinct(u: User)
    ensures Jwt.DistinctKeys(TokenClaims(u))
  {
    var claims := TokenClaims(u);
    assert Jwt.KeyAt(claims, 0) == "sub" && Jwt.KeyAt(claims, 1) == "email" && Jwt.KeyAt(claims, 2) == "role";
  }

  /** A successful login answers 200 with the stored user's token response. */
  lemma LoginSucceeds(t: UsersTable, emailIn: Option<string>, passwordIn: Option<string>, derive: KeyDerivation,
                      dbFails: bool, now: int, env: Option<string>, hmac: Jwt.Hmac)
    requires Login(t, emailIn, passwordIn, derive, dbFails, now, env, hmac).Authenticated?
    ensures var u := Find(t.rows, ByEmail(NormalizeEmail(emailIn)));
      u.Some? && VerifyPassword(passwordIn.GetOr(""), u.value.passwordHash, derive)
      && TokenResponse(u.value, 200, now, env, hmac) == Ok(Login(t, emailIn, passwordIn, derive, dbFails, now, env, hmac))
  {
  }

  /** A successful login carries a token that verifies to `{sub, email, role}` of the stored user, plus `iat` and `exp`. */
  lemma LoginToken(t: UsersTable, emailIn: Option<string>, passwordIn: Option<string>, derive: KeyDerivation,
                   dbFails: bool, now: int, env: Option<string>, hmac: Jwt.Hmac, later: int)
    requires Jwt.IsDigest(hmac)
    requires Login(t, emailIn, passwordIn, derive, dbFails, now, env, hmac).Authenticated?
    requires now + Jwt.DefaultExpirySeconds != 0 && later <= now + Jwt.DefaultExpirySeconds
    ensures var u := Find(t.rows, ByEmail(NormalizeEmail(emailIn)));
      var reply := Login(t, emailIn, passwordIn, derive, dbFails, now, env, hmac);
      u.Some? && reply.status == 200 && reply.user == UserView(u.value.id, u.value.email, u.value.role)
      && Jwt.Verify(Some(reply.token), env, hmac, later) == Ok(ObjectJson(Jwt.Claims(TokenClaims(u.value), now, None)))
  {
    LoginSucceeds(t, emailIn, passwordIn, derive, dbFails, now, env, hmac);
    var u := Find(t.rows, ByEmail(NormalizeEmail(emailIn))).value;
    TokenVerifies(u, 200, now, env, hmac, later);
  }

  /** Whoever registers can then log in with the same address and password while the row stands. */
  lemma RegisterThenLogin(t: UsersTable, emailIn: Option<string>, passwordIn: Option<string>, salt: seq<Byte>,
                          derive: KeyDerivation, now: int, env: Option<string>, hmac: Jwt.Hmac, later: int)
    requires ValidUsers(t) && |salt| == SaltBytes && IsKeyDerivation(derive)
    requires Register(t, emailIn, passwordIn, salt, derive, false, now, env, hmac).1.Authenticated?
    ensures var t2 := Register(t, emailIn, passwordIn, salt, derive, false, now, env, hmac).0;
      Login(t2, emailIn, passwordIn, derive, false, later, env, hmac).Authenticated?
  {
    var (t2, reply) := Register(t, emailIn, passwordIn, salt, derive, false, now, env, hmac);
    var email := NormalizeEmail(emailIn);
    var password := passwordIn.GetOr("");
    var u := t2.rows[|t.rows|];
    assert Find(t.rows, ByEmail(email)).None?;
    FindAppended(t.rows, u, email);
    HashThenVerify(password, password, salt, derive);
  }

  /** An address missing from the rows is found in the row appended for it. */
  lemma {:induction false} FindAppended(rows: seq<User>, u: User, email: string)
    requires Find(rows, ByEmail(email)).None? && u.email == email
    ensures Find(rows + [u], ByEmail(email)) == Some(u)
  {
    if rows != [] {
      assert (rows + [u])[1..] == rows[1..] + [u];
      FindAppended(rows[1..], u, email);
    }
  }

  /**
   * A subject outside the `INTEGER` range gets 500; within it, the profile
   * is 404 exactly when no row has the subject's id, and otherwise it is
   * that row's profile.
   */
  lemma MeNotFound(t: UsersTable, sub: int)
    ensures !InInt4(sub) ==> Me(t, sub, false) == Failure(500, ProfileFailed)
    ensures InInt4(sub) ==>
      (Me(t, sub, false) == Failure(404, UserNotFound) <==> forall i :: 0 <= i < |t.rows| ==> t.rows[i].id != sub)
    ensures Me(t, sub, false).ProfileFound? ==>
      exists i :: 0 <= i < |t.rows| && t.rows[i].id == sub
        && Me(t, sub, false).profile == Profile(sub, t.rows[i].email, t.rows[i].createdAt, t.rows[i].role)
  {
  }
}
