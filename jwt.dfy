/** Bearer-token handling of the post board (JwtUtil.java): extracting the raw token
    from the Authorization header, issuing a signed token for a username, and
    validating a token.  Signing and parsing of the compact JWS (RFC 7515, section
    7.1, signed with HS256 per section 3.2 of RFC 7518) happen in a library; the model
    receives that library as a value of type `Library` and states, in `Sound`, what
    RFC 7519 asks of it. */
module Jwt {
  import opened Wrappers

  /** Name of the HTTP header that carries the credential. */
  const AuthorizationHeader: string := "Authorization"

  /** Marker in front of the compact token in that header. */
  const BearerPrefix: string := "Bearer "

  /** Lifetime of an issued token, in milliseconds: 60 minutes. */
  const TokenTime: int := 60 * 60 * 1000

  /** Key material for HMAC-SHA256. */
  type Key = seq<bv8>

  /** The registered claims the service puts in a token (RFC 7519, section 4.1):
      `sub`, and `iat` / `exp` as NumericDate values, i.e. whole seconds since the epoch. */
  datatype Claims = Claims(subject: string, issuedAt: int, expiration: int)

  /** What parsing a signed token can end in: the claims, or one of the four
      exception families `validateToken` catches.  `EmptyClaims` stands for the
      IllegalArgumentException the parser raises for an empty or blank token or a
      missing key. */
  datatype ParseResult =
    | Ok(claims: Claims)
    | BadSignatureOrMalformed
    | Expired
    | Unsupported
    | EmptyClaims

  /** The JWT library the source calls into, as three functions:
      `decodeKey` is Base64 decoding of the configured secret followed by
      `Keys.hmacShaKeyFor` (None where either throws), `compact` builds and signs a
      compact JWS, `parse` verifies and parses one at a given time in milliseconds. */
  datatype Library = Library(
    decodeKey: string -> Option<Key>,
    compact: (Claims, Key) -> string,
    parse: (string, Key, int) -> ParseResult)

  /** Java's `Character.isWhitespace`. */
  predicate IsWhitespace(c: char) {
    || c == ' ' || c == '\t' || c == '\n' || c == '\U{000B}' || c == '\U{000C}' || c == '\r'
    || ('\U{001C}' <= c <= '\U{001F}')
    || c == '\U{1680}'
    || ('\U{2000}' <= c <= '\U{200A}' && c != '\U{2007}')
    || c == '\U{2028}' || c == '\U{2029}' || c == '\U{205F}' || c == '\U{3000}'
  }

  /** Spring's `StringUtils.hasText` on a non-null string: some character is not whitespace. */
  predicate HasText(s: string) {
    exists i :: 0 <= i < |s| && !IsWhitespace(s[i])
  }

  /** An idealised JWS library, as RFC 7515 and RFC 7519 describe it: a signed token is
      never empty; parsing it with the key it was signed with gives back its claims
      until the expiry instant and reports `Expired` from that instant on (RFC 7519,
      section 4.1.4: the token must not be accepted on or after `exp`); a blank token
      is refused as an illegal argument. */
  ghost predicate Sound(lib: Library) {
    && (forall c: Claims, k: Key :: |lib.compact(c, k)| > 0)
    && (forall c: Claims, k: Key, now: int :: now < c.expiration * 1000 ==>
          lib.parse(lib.compact(c, k), k, now) == Ok(c))
    && (forall c: Claims, k: Key, now: int :: now >= c.expiration * 1000 ==>
          lib.parse(lib.compact(c, k), k, now) == Expired)
    && (forall t: string, k: Key, now: int :: !HasText(t) ==> lib.parse(t, k, now) == EmptyClaims)
  }

  /** A header value that starts with the bearer prefix always has text, so the
      `hasText` test in `resolveToken` never decides anything on its own. */
  lemma PrefixedHasText(header: Option<string>)
    ensures header.Some? && BearerPrefix <= header.value ==> HasText(header.value)
  {
    if header.Some? && BearerPrefix <= header.value {
      assert header.value[0] == 'B' && !IsWhitespace(header.value[0]);
    }
  }

  /** `resolveToken`: the raw token after a case-sensitive "Bearer " prefix, or null. */
  function ResolveToken(header: Option<string>): (token: Option<string>)
    ensures token.Some? <==> header.Some? && BearerPrefix <= header.value
    ensures token.Some? ==> header.value == BearerPrefix + token.value
  {
    PrefixedHasText(header);
    assert |BearerPrefix| == 7;
    if header.Some? && HasText(header.value) && BearerPrefix <= header.value then
      Some(header.value[7..])
    else
      None
  }

  /** `Date.getTime() / 1000` as the library stores `iat` and `exp`: Java's integer
      division, which truncates toward zero. */
  function NumericDate(millis: int): (seconds: int)
    ensures millis >= 0 ==> seconds * 1000 <= millis < seconds * 1000 + 1000
    ensures millis < 0 ==> seconds * 1000 - 1000 < millis <= seconds * 1000
  {
    if millis >= 0 then millis / 1000 else -((-millis) / 1000)
  }

  /** The claims `createToken` asks the library to sign at time `now` (milliseconds):
      the username as subject, and as issue time the whole second that holds `now`. */
  function IssuedClaims(username: string, now: int): (c: Claims)
    ensures c.subject == username
    ensures now >= 0 ==> c.issuedAt * 1000 <= now < c.issuedAt * 1000 + 1000
    ensures now >= 0 ==> c.expiration * 1000 <= now + TokenTime < c.expiration * 1000 + 1000
  {
    Claims(username, NumericDate(now), NumericDate(now + TokenTime))
  }

  /** `createToken`: the bearer prefix followed by the signed compact token. */
  function IssuedToken(lib: Library, key: Key, username: string, now: int): (token: string)
    ensures ResolveToken(Some(token)) == Some(lib.compact(IssuedClaims(username, now), key))
  {
    var raw := lib.compact(IssuedClaims(username, now), key);
    assert (BearerPrefix + raw)[..|BearerPrefix|] == BearerPrefix;
    BearerPrefix + raw
  }

  /** `validateToken` once the key is set: every parse failure becomes false. */
  function Accepts(lib: Library, key: Key, token: string, now: int): (valid: bool)
    ensures valid <==> lib.parse(token, key, now).Ok?
  {
    match lib.parse(token, key, now)
    case Ok(_) => true
    case BadSignatureOrMalformed => false
    case Expired => false
    case Unsupported => false
    case EmptyClaims => false
  }

  /** The three header shapes the bearer scheme distinguishes: the exact prefix gives
      the suffix, a differently cased prefix gives null, and the bare prefix gives the
      empty token rather than null. */
  lemma ResolveTokenExamples()
    ensures ResolveToken(Some("Bearer abc123")) == Some("abc123")
    ensures ResolveToken(Some("bearer abc123")) == None
    ensures ResolveToken(Some("Bearer ")) == Some("")
    ensures ResolveToken(None) == None
  {
  }

  /** Expiry arithmetic of an issued token: `exp` is one hour of whole seconds after
      `iat`, and, because both are truncated to seconds, the expiry instant falls in
      the last second of the hour after `now`. */
  lemma IssuedClaimsTimes(username: string, now: int)
    requires 0 <= now
    ensures IssuedClaims(username, now).subject == username
    ensures IssuedClaims(username, now).expiration - IssuedClaims(username, now).issuedAt == TokenTime / 1000
    ensures now + TokenTime - 1000 < IssuedClaims(username, now).expiration * 1000 <= now + TokenTime
  {
  }

  /** Issue then validate: the raw token taken back out of the header is accepted,
      with its subject and issue time, at every instant before the expiry instant, and
      refused as expired from then on.  In particular it is accepted for the first
      3599 seconds after issue and refused from 3600 seconds on. */
  lemma IssuedTokenLifetime(lib: Library, key: Key, username: string, now: int, t: int)
    requires Sound(lib) && 0 <= now
    ensures ResolveToken(Some(IssuedToken(lib, key, username, now))).Some?
    ensures var raw := ResolveToken(Some(IssuedToken(lib, key, username, now))).value;
      && (Accepts(lib, key, raw, t) <==> t < IssuedClaims(username, now).expiration * 1000)
      && (t <= now + TokenTime - 1000 ==>
            lib.parse(raw, key, t) == Ok(Claims(username, NumericDate(now), NumericDate(now) + 3600)))
      && (t >= now + TokenTime ==> lib.parse(raw, key, t) == Expired)
  {
  }

  /** The header "Bearer " passes `resolveToken` as the empty token, and
      `validateToken` then refuses it: the empty token never authenticates. */
  lemma BareBearerRefused(lib: Library, key: Key, now: int)
    requires Sound(lib)
    ensures ResolveToken(Some(BearerPrefix)) == Some("")
    ensures !Accepts(lib, key, ResolveToken(Some(BearerPrefix)).value, now)
  {
  }

  /** The bean holding the signing key (`JwtUtil`).  The library and the configured
      secret are fixed at construction; `key` stays null until `Init` runs. */
  class JwtUtil {
    const lib: Library
    const secretKey: string
    var key: Option<Key>

    constructor(lib: Library, secretKey: string)
      ensures this.lib == lib && this.secretKey == secretKey && key == None
    {
      this.lib := lib;
      this.secretKey := secretKey;
      key := None;
    }

    /** `init`: decode the secret into the key; when decoding throws, the key is
        left as it was and start-up fails. */
    method Init() returns (ok: bool)
      modifies this`key
      ensures ok <==> lib.decodeKey(secretKey).Some?
      ensures key == if ok then lib.decodeKey(secretKey) else old(key)
    {
      var decoded := lib.decodeKey(secretKey);
      ok := decoded.Some?;
      if ok {
        key := decoded;
      }
    }

    /** `createToken` at time `now`; None where signing with a null key throws. */
    method CreateToken(username: string, now: int) returns (token: Option<string>)
      ensures token.Some? <==> key.Some?
      ensures key.Some? ==> token == Some(IssuedToken(lib, key.value, username, now))
      ensures token.Some? ==> ResolveToken(token) == Some(lib.compact(IssuedClaims(username, now), key.value))
    {
      if key.None? {
        return None;
      }
      token := Some(BearerPrefix + lib.compact(IssuedClaims(username, now), key.value));
    }

    /** `validateToken` at time `now`: true exactly when parsing succeeds.  A null
        token (what `resolveToken` gives for a missing or non-bearer header) and a
        missing key are illegal arguments to the parser and also give false. */
    method ValidateToken(token: Option<string>, now: int) returns (valid: bool)
      ensures valid <==> key.Some? && token.Some? && lib.parse(token.value, key.value, now).Ok?
      ensures valid ==> key.Some? && token.Some? && Accepts(lib, key.value, token.value, now)
      ensures token.None? ==> !valid
    {
      if key.None? || token.None? {
        return false;
      }
      valid := Accepts(lib, key.value, token.value, now);
    }

    /** `getUserInfoFromToken`: the claims, or the parse failure it throws; a null
        token or a missing key is the illegal-argument failure. */
    method GetUserInfoFromToken(token: Option<string>, now: int) returns (r: Result<Claims, ParseResult>)
      ensures key.None? || token.None? ==> r == Failure(EmptyClaims)
      ensures key.Some? && token.Some? ==> (r.Success? <==> lib.parse(token.value, key.value, now).Ok?)
      ensures r.Success? ==> key.Some? && token.Some? && lib.parse(token.value, key.value, now) == Ok(r.value)
      ensures key.Some? && token.Some? && r.Failure? ==> r.error == lib.parse(token.value, key.value, now)
      ensures r.Failure? ==> !r.error.Ok?
    {
      if key.None? || token.None? {
        return Failure(EmptyClaims);
      }
      var parsed := lib.parse(token.value, key.value, now);
      if parsed.Ok? {
        r := Success(parsed.claims);
      } else {
        r := Failure(parsed);
      }
    }
  }
}
