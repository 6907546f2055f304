/**
 * The token service: compact JSON Web Tokens (RFC 7519) signed with
 * HS256, i.e. HMAC-SHA-256 as section 3.2 of RFC 7518 uses it.  The
 * HMAC itself is a parameter; what is modelled is how the three parts
 * are built and the order in which a token is checked.
 */
module Jwt {
  import opened Wrappers
  import opened Utf8
  import opened Base64Url
  import opened JsText
  import opened JsNumber
  import opened Json
  import opened JsonWrite

  /** Seven days, in seconds. */
  const DefaultExpirySeconds: int := 60 * 60 * 24 * 7

  /** HMAC-SHA-256: key bytes and message bytes to the digest. */
  type Hmac = (seq<Byte>, seq<Byte>) -> seq<Byte>

  /** A digest of SHA-256's 32 bytes, whatever the key and message. */
  ghost predicate IsDigest(hmac: Hmac) {
    forall key, msg :: |hmac(key, msg)| == 32
  }

  /** Why `verifyJwt` or `getJwtSecret` throws. */
  datatype JwtError = MissingToken | InvalidFormat | NoSecret | BadSignature | BadPayload | Expired

  /** `getJwtSecret`: the configured secret, unless it is unset or empty. */
  function Secret(env: Option<string>): (r: Result<string, JwtError>)
    ensures r.Ok? <==> env.Some? && env.value != ""
    ensures r.Ok? ==> r.value == env.value
    ensures r.Err? ==> r.error == NoSecret
  {
    if env.None? || env.value == "" then Err(NoSecret) else Ok(env.value)
  }

  /** `base64UrlEncodeJson` of a flat object. */
  function EncodeJson(ms: seq<(string, Scalar)>): string {
    UrlEncode(Utf8.Encode(ObjectText(ms)))
  }

  /** The header `{"alg":"HS256","typ":"JWT"}`. */
  const Header: seq<(string, Scalar)> := [("alg", SStr("HS256")), ("typ", SStr("JWT"))]

  /** `createSignature`: the unpadded base64url of the HMAC of `header.payload`, keyed by the secret's UTF-8. */
  function CreateSignature(header: string, payload: string, secret: string, hmac: Hmac): string {
    UrlEncode(hmac(Utf8.Encode(secret), Utf8.Encode(header + "." + payload)))
  }

  /** The position of the first member named `key`, or `|ms|` when there is none. */
  function IndexOf(ms: seq<(string, Scalar)>, key: string): (i: nat)
    ensures i <= |ms|
    ensures i < |ms| ==> ms[i].0 == key
    ensures forall j :: 0 <= j < i ==> ms[j].0 != key
  {
    if ms == [] then 0 else if ms[0].0 == key then 0 else 1 + IndexOf(ms[1..], key)
  }

  /** `{...ms, [key]: v}`: an existing property keeps its place and takes the new value; a new one goes last. */
  function Set(ms: seq<(string, Scalar)>, key: string, v: Scalar): seq<(string, Scalar)> {
    var i := IndexOf(ms, key);
    if i < |ms| then ms[i := (key, v)] else ms + [(key, v)]
  }

  /** The name of the member at `i`. */
  function KeyAt(ms: seq<(string, Scalar)>, i: nat): string
    requires i < |ms|
  {
    ms[i].0
  }

  /** The property names of a JavaScript object are distinct. */
  predicate DistinctKeys(ms: seq<(string, Scalar)>) {
    forall i, j :: 0 <= i < j < |ms| ==> KeyAt(ms, i) != KeyAt(ms, j)
  }

  /** `options.expiresIn ?? DEFAULT_EXPIRY_SECONDS`. */
  function Lifetime(expiresIn: Option<int>): int {
    if expiresIn.Some? then expiresIn.value else DefaultExpirySeconds
  }

  /** The payload `signJwt` encodes: the caller's claims with `iat` and `exp` set. */
  function Claims(payload: seq<(string, Scalar)>, now: int, expiresIn: Option<int>): seq<(string, Scalar)> {
    Set(Set(payload, "iat", SInt(now)), "exp", SInt(now + Lifetime(expiresIn)))
  }

  /** `signJwt(payload, {expiresIn})` at second `now`: `header.payload.signature`, or the missing-secret error. */
  function Sign(payload: seq<(string, Scalar)>, now: int, expiresIn: Option<int>, env: Option<string>, hmac: Hmac)
    : Result<string, JwtError>
  {
    var header := EncodeJson(Header);
    var body := EncodeJson(Claims(payload, now, expiresIn));
    match Secret(env)
    case Err(e) => Err(e)
    case Ok(secret) => Ok(header + "." + body + "." + CreateSignature(header, body, secret, hmac))
  }

  /** The first three parts of `token.split('.')`, `""` standing for a part that is not there. */
  function Parts(token: string): (string, string, string) {
    var ps := Split(token, '.');
    (ps[0], if |ps| > 1 then ps[1] else "", if |ps| > 2 then ps[2] else "")
  }

  /** The length comparison of the two buffers, then `timingSafeEqual`. */
  function SignatureMatches(provided: string, expected: string): bool {
    var a := Utf8.Encode(provided);
    var b := Utf8.Encode(expected);
    if |a| != |b| then false else a == b
  }

  /** `JSON.parse(base64UrlDecode(part))`; `None` where decoding or parsing fails. */
  function ReadPart(part: string): Option<Json> {
    match UrlDecode(part)
    case None => None
    case Some(bs) => Parse(Utf8.Decode(bs))
  }

  /** `x < now` for the number `x` converts to: false for NaN. */
  predicate Below(n: Num, now: int) {
    match n
    case Finite(v) => v < now as real
    case NaN => false
    case Infinite(negative) => negative
  }

  /** The expiry test: `null.exp` throws, and a missing, falsy or past `exp` is expired. */
  function CheckExpiry(payload: Json, now: int): Result<Json, JwtError> {
    if payload.JNull? then Err(BadPayload)
    else
      var exp := Lookup(payload, "exp");
      if exp.None? || !Truthy(exp.value) || Below(ToNumber(exp.value), now) then Err(Expired)
      else Ok(payload)
  }

  /** `verifyJwt(token)` at second `now`: the decoded payload, or the first check that fails. */
  function Verify(token: Option<string>, env: Option<string>, hmac: Hmac, now: int): Result<Json, JwtError> {
    if token.None? || token.value == "" then Err(MissingToken)
    else
      var (header, body, signature) := Parts(token.value);
      if header == "" || body == "" || signature == "" then Err(InvalidFormat)
      else
        match Secret(env)
        case Err(e) => Err(e)
        case Ok(secret) =>
          if !SignatureMatches(signature, CreateSignature(header, body, secret, hmac)) then Err(BadSignature)
          else
            match ReadPart(body)
            case None => Err(BadPayload)
            case Some(payload) => CheckExpiry(payload, now)
  }

  // ---------------------------------------------------------------------
  // Claims
  // ---------------------------------------------------------------------

  /** Only the last member with a name counts, so a member no later one shares a name with is the one found. */
  lemma {:induction false} LastMemberAt(ps: seq<(string, Json)>, key: string, k: nat)
    requires k < |ps| && ps[k].0 == key
    requires forall j :: k < j < |ps| ==> ps[j].0 != key
    ensures LastMember(ps, key) == Some(ps[k].1)
  {
    if k < |ps| - 1 {
      LastMemberAt(ps[..|ps| - 1], key, k);
    }
  }

  /** Replacing a member under another name does not change what a name finds. */
  lemma {:induction false} LastMemberOther(ps: seq<(string, Json)>, i: nat, p: (string, Json), key: string)
    requires i < |ps| && ps[i].0 != key && p.0 != key
    ensures LastMember(ps[i := p], key) == LastMember(ps, key)
  {
    var qs := ps[i := p];
    if i < |ps| - 1 {
      assert qs[..|qs| - 1] == ps[..|ps| - 1][i := p];
      LastMemberOther(ps[..|ps| - 1], i, p, key);
    } else {
      assert qs[..|qs| - 1] == ps[..|ps| - 1];
    }
  }

  /** Setting a property: the object then reads the new value under that name, the old values under every other name. */
  lemma SetLookup(ms: seq<(string, Scalar)>, key: string, v: Scalar)
    requires DistinctKeys(ms)
    ensures DistinctKeys(Set(ms, key, v))
    ensures Lookup(ObjectJson(Set(ms, key, v)), key) == Some(ScalarJson(v))
    ensures forall k :: k != key ==> Lookup(ObjectJson(Set(ms, key, v)), k) == Lookup(ObjectJson(ms), k)
  {
    var i := IndexOf(ms, key);
    var r := Set(ms, key, v);
    var ps := ObjectJson(ms).members;
    var qs := ObjectJson(r).members;
    if i < |ms| {
      assert qs == ps[i := (key, ScalarJson(v))];
      forall j | i < j < |qs|
        ensures qs[j].0 != key
      {
        assert KeyAt(ms, i) != KeyAt(ms, j);
      }
      LastMemberAt(qs, key, i);
      forall a, b | 0 <= a < b < |r|
        ensures KeyAt(r, a) != KeyAt(r, b)
      {
        assert KeyAt(ms, a) != KeyAt(ms, b);
      }
      forall k | k != key
        ensures LastMember(qs, k) == LastMember(ps, k)
      {
        LastMemberOther(ps, i, (key, ScalarJson(v)), k);
      }
    } else {
      assert qs == ps + [(key, ScalarJson(v))];
      assert qs[..|qs| - 1] == ps;
      forall a, b | 0 <= a < b < |r|
        ensures KeyAt(r, a) != KeyAt(r, b)
      {
        if b < |ms| {
          assert KeyAt(ms, a) != KeyAt(ms, b);
        }
      }
    }
  }

  /** The signed payload holds `iat` = now and `exp` = now + lifetime, and every other claim of the caller unchanged. */
  lemma ClaimsContent(payload: seq<(string, Scalar)>, now: int, expiresIn: Option<int>)
    requires DistinctKeys(payload)
    ensures var c := ObjectJson(Claims(payload, now, expiresIn));
      Lookup(c, "iat") == Some(JNumber(now as real))
      && Lookup(c, "exp") == Some(JNumber((now + Lifetime(expiresIn)) as real))
      && forall k :: k != "iat" && k != "exp" ==> Lookup(c, k) == Lookup(ObjectJson(payload), k)
  {
    SetLookup(payload, "iat", SInt(now));
    SetLookup(Set(payload, "iat", SInt(now)), "exp", SInt(now + Lifetime(expiresIn)));
  }

  // ---------------------------------------------------------------------
  // Token layout
  // ---------------------------------------------------------------------

  /** A base64url part never holds the `.` that separates the parts. */
  lemma UrlEncodeNoDot(bs: seq<Byte>)
    ensures forall i :: 0 <= i < |UrlEncode(bs)| ==> UrlEncode(bs)[i] != '.'
    ensures |UrlEncode(bs)| == 0 <==> |bs| == 0
  {
    UrlEncodeText(bs);
  }

  /** Three non-empty parts without dots, joined by dots, split back into exactly those three. */
  lemma TokenParts(a: string, b: string, c: string)
    requires forall i :: 0 <= i < |a| ==> a[i] != '.'
    requires forall i :: 0 <= i < |b| ==> b[i] != '.'
    requires forall i :: 0 <= i < |c| ==> c[i] != '.'
    ensures Split(a + "." + b + "." + c, '.') == [a, b, c]
    ensures Parts(a + "." + b + "." + c) == (a, b, c)
  {
    assert a + "." + b + "." + c == a + ['.'] + (b + ['.'] + c);
    SplitAfterPart(a, '.', b + ['.'] + c);
    SplitAfterPart(b, '.', c);
    SplitWithoutSeparator(c, '.');
  }

  /** Signing fails exactly when the secret is unset or empty. */
  lemma SignNeedsSecret(payload: seq<(string, Scalar)>, now: int, expiresIn: Option<int>, env: Option<string>, hmac: Hmac)
    ensures Sign(payload, now, expiresIn, env, hmac).Err? <==> env.None? || env.value == ""
    ensures Sign(payload, now, expiresIn, env, hmac).Err? ==> Sign(payload, now, expiresIn, env, hmac).error == NoSecret
  {
  }

  /**
   * A signed token splits into exactly three non-empty parts: the
   * encoded header, the encoded claims, and the signature over the
   * first two.
   */
  lemma SignedParts(payload: seq<(string, Scalar)>, now: int, expiresIn: Option<int>, env: Option<string>, hmac: Hmac, token: string)
    requires IsDigest(hmac)
    requires Sign(payload, now, expiresIn, env, hmac) == Ok(token)
    ensures env.Some? && env.value != ""
    ensures var header := EncodeJson(Header);
      var body := EncodeJson(Claims(payload, now, expiresIn));
      var signature := CreateSignature(header, body, env.value, hmac);
      Split(token, '.') == [header, body, signature] && Parts(token) == (header, body, signature)
      && header != "" && body != "" && signature != ""
  {
    var header := EncodeJson(Header);
    var body := EncodeJson(Claims(payload, now, expiresIn));
    var signature := CreateSignature(header, body, env.value, hmac);
    EncodedPart(ObjectText(Header));
    EncodedPart(ObjectText(Claims(payload, now, expiresIn)));
    var mac := hmac(Utf8.Encode(env.value), Utf8.Encode(header + "." + body));
    UrlEncodeNoDot(mac);
    assert token == header + "." + body + "." + signature;
    TokenParts(header, body, signature);
  }

  /** The base64url of a text's UTF-8 is empty only for the empty text and holds no dot. */
  lemma EncodedPart(text: string)
    ensures var part := UrlEncode(Utf8.Encode(text));
      (part == "" <==> text == "") && forall i :: 0 <= i < |part| ==> part[i] != '.'
  {
    UrlEncodeNoDot(Utf8.Encode(text));
  }

  /** The encoded payload part reads back as the object it was written from. */
  lemma ReadEncoded(ms: seq<(string, Scalar)>)
    ensures ReadPart(EncodeJson(ms)) == Some(ObjectJson(ms))
  {
    UrlRoundTrip(Utf8.Encode(ObjectText(ms)));
    DecodeEncode(ObjectText(ms));
    ObjectRoundTrip(ms);
  }

  // ---------------------------------------------------------------------
  // The order of the checks
  // ---------------------------------------------------------------------

  /** An absent or empty token, and a token whose first three parts are not all there, are refused before anything else. */
  lemma VerifyFormat(token: Option<string>, env: Option<string>, hmac: Hmac, now: int)
    ensures Verify(token, env, hmac, now) == Err(MissingToken) <==> token.None? || token.value == ""
    ensures Verify(token, env, hmac, now) == Err(InvalidFormat) <==>
      token.Some? && token.value != "" && (Parts(token.value).0 == "" || Parts(token.value).1 == "" || Parts(token.value).2 == "")
  {
  }

  /** The two buffer checks together accept exactly the expected signature. */
  lemma SignatureMatchesEqual(provided: string, expected: string)
    ensures SignatureMatches(provided, expected) <==> provided == expected
  {
    EncodeInjective(provided, expected);
  }

  /**
   * A well-formed token with a secret configured is refused as badly
   * signed exactly when its signature is not the HMAC of its first two
   * parts; so a token that passes carries that signature.  This is
   * decided before the payload is decoded.
   */
  lemma VerifySignature(token: string, env: Option<string>, hmac: Hmac, now: int)
    requires token != ""
    requires Parts(token).0 != "" && Parts(token).1 != "" && Parts(token).2 != ""
    requires env.Some? && env.value != ""
    ensures var (header, body, signature) := Parts(token);
      Verify(Some(token), env, hmac, now) == Err(BadSignature) <==> signature != CreateSignature(header, body, env.value, hmac)
    ensures var (header, body, signature) := Parts(token);
      Verify(Some(token), env, hmac, now).Ok? ==> signature == CreateSignature(header, body, env.value, hmac)
  {
    var (header, body, signature) := Parts(token);
    SignatureMatchesEqual(signature, CreateSignature(header, body, env.value, hmac));
  }

  /**
   * Once the signature holds and the payload parses to something other
   * than `null`, the token is refused as expired exactly when `exp` is
   * missing, falsy or below `now`; a token whose `exp` is `now` passes.
   */
  lemma VerifyExpiry(token: string, env: Option<string>, hmac: Hmac, now: int, payload: Json)
    requires token != ""
    requires Parts(token).0 != "" && Parts(token).1 != "" && Parts(token).2 != ""
    requires env.Some? && env.value != ""
    requires Parts(token).2 == CreateSignature(Parts(token).0, Parts(token).1, env.value, hmac)
    requires ReadPart(Parts(token).1) == Some(payload) && !payload.JNull?
    ensures var exp := Lookup(payload, "exp");
      Verify(Some(token), env, hmac, now) == Err(Expired) <==>
        exp.None? || !Truthy(exp.value) || Below(ToNumber(exp.value), now)
    ensures Verify(Some(token), env, hmac, now).Ok? ==> Verify(Some(token), env, hmac, now).value == payload
    ensures Lookup(payload, "exp") == Some(JNumber(now as real)) && now != 0 ==> Verify(Some(token), env, hmac, now) == Ok(payload)
  {
    var (header, body, signature) := Parts(token);
    SignatureMatchesEqual(signature, CreateSignature(header, body, env.value, hmac));
  }

  /** A token carrying the right signature over a payload whose `exp` is a non-zero number not yet passed is accepted. */
  lemma VerifyAccepts(token: string, env: Option<string>, hmac: Hmac, now: int, payload: Json, exp: int)
    requires token != "" && env.Some? && env.value != ""
    requires Parts(token).0 != "" && Parts(token).1 != ""
    requires Parts(token).2 == CreateSignature(Parts(token).0, Parts(token).1, env.value, hmac) != ""
    requires ReadPart(Parts(token).1) == Some(payload) && !payload.JNull?
    requires Lookup(payload, "exp") == Some(JNumber(exp as real)) && exp != 0 && now <= exp
    ensures Verify(Some(token), env, hmac, now) == Ok(payload)
  {
    VerifyExpiry(token, env, hmac, now, payload);
  }

  /** The payload part of a signed token reads back as the claims, with `exp` at now + lifetime. */
  lemma SignedPayload(payload: seq<(string, Scalar)>, now: int, expiresIn: Option<int>, env: Option<string>, hmac: Hmac, token: string)
    requires IsDigest(hmac) && DistinctKeys(payload)
    requires Sign(payload, now, expiresIn, env, hmac) == Ok(token)
    ensures token != "" && env.Some? && env.value != ""
    ensures Parts(token).0 != "" && Parts(token).1 != ""
    ensures Parts(token).2 == CreateSignature(Parts(token).0, Parts(token).1, env.value, hmac) != ""
    ensures var claims := ObjectJson(Claims(payload, now, expiresIn));
      ReadPart(Parts(token).1) == Some(claims) && !claims.JNull?
    ensures Lookup(ObjectJson(Claims(payload, now, expiresIn)), "exp") == Some(JNumber((now + Lifetime(expiresIn)) as real))
  {
    SignedParts(payload, now, expiresIn, env, hmac, token);
    ReadEncoded(Claims(payload, now, expiresIn));
    ClaimsContent(payload, now, expiresIn);
  }

  /**
   * `verifyJwt(signJwt(p))` under the same secret gives back the claims
   * written, `iat` and `exp` included, as long as `exp` is not 0 and
   * not yet passed.
   */
  lemma RoundTrip(payload: seq<(string, Scalar)>, now: int, expiresIn: Option<int>, env: Option<string>, hmac: Hmac,
                  token: string, later: int)
    requires IsDigest(hmac) && DistinctKeys(payload)
    requires Sign(payload, now, expiresIn, env, hmac) == Ok(token)
    requires now + Lifetime(expiresIn) != 0 && later <= now + Lifetime(expiresIn)
    ensures Verify(Some(token), env, hmac, later) == Ok(ObjectJson(Claims(payload, now, expiresIn)))
  {
    SignedPayload(payload, now, expiresIn, env, hmac, token);
    VerifyAccepts(token, env, hmac, later, ObjectJson(Claims(payload, now, expiresIn)), now + Lifetime(expiresIn));
  }
}
