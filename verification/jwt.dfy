/** `JwtUtils`: issuing and reading signed tokens.

    HMAC-SHA256 and the compact serialisation are not modelled. A token is the
    record the parser would recover from it: either claims signed under some
    key, or text that does not parse. Parsing succeeds iff the token is well
    formed and was signed with the verifying key. Times are milliseconds since
    the epoch, read from a clock the caller passes in. */
module Jwt {

  import opened Wrappers
  import opened JavaText
  import opened UserEntity
  import opened Exceptions
  import opened UserDetails

  /** The signing key, derived from the configured secret. */
  datatype Key = Key(secret: string)

  datatype Claims = Claims(
    custom: map<string, string>,
    subject: Option<string>,
    issuedAt: Option<Long>,
    expiration: Option<Long>
  )

  datatype Token = Signed(claims: Claims, key: Key) | Malformed(text: string)

  /** `jwt.secret` and `jwt.expiration` with their defaults. */
  datatype Config = Config(secret: string, lifetime: Long)

  const DefaultSecret := "defaultSecretKey"
  const DefaultLifetime: Long := 86_400_000
  const DefaultConfig := Config(DefaultSecret, DefaultLifetime)

  /** HMAC-SHA256 keys shorter than 256 bits are refused by the library. */
  const MinKeyBytes := 32

  predicate StrongSecret(cfg: Config)
  {
    Utf8Length(cfg.secret) >= MinKeyBytes
  }

  /** `getSigningKey()`: the secret's UTF-8 bytes as an HMAC key, or the
      library's weak-key exception. */
  function SigningKey(cfg: Config): (r: Result<Key, Exception>)
    ensures r.Success? <==> Utf8Length(cfg.secret) >= 32
    ensures r.Success? ==> r.value.secret == cfg.secret
    ensures r.Failure? ==> r.error == JwtException(WeakKey)
  {
    if StrongSecret(cfg) then Success(Key(cfg.secret)) else Failure(JwtException(WeakKey))
  }

  /** The token carries a signature the configured key verifies. */
  predicate Verifies(t: Token, cfg: Config)
  {
    StrongSecret(cfg) && t.Signed? && t.key == Key(cfg.secret)
  }

  /** `createToken(claims, subject)`: issued now, expiring one lifetime later
      (in `long` arithmetic), signed with the configured key; signing fails
      when the key is too short. */
  function CreateToken(custom: map<string, string>, subject: Option<string>, cfg: Config, now: Long): (r: Result<Token, Exception>)
    ensures r.Success? <==> StrongSecret(cfg)
    ensures r.Failure? ==> r.error == JwtException(WeakKey)
    ensures r.Success? ==>
      && Verifies(r.value, cfg)
      && r.value.claims.custom == custom && r.value.claims.subject == subject
      && r.value.claims.issuedAt == Some(now)
      && r.value.claims.expiration.Some?
      && (MinLong <= now + cfg.lifetime <= MaxLong ==> r.value.claims.expiration == Some(now + cfg.lifetime))
  {
    var key :- SigningKey(cfg);
    Success(Signed(Claims(custom, subject, Some(now), Some(WrapLong(now + cfg.lifetime))), key))
  }

  /** `generateToken(userDetails)`: the principal's username as subject and no
      custom claims. */
  function GenerateToken(details: Details, cfg: Config, now: Long): (r: Result<Token, Exception>)
    ensures r.Success? <==> StrongSecret(cfg)
    ensures r.Failure? ==> r.error == JwtException(WeakKey)
    ensures r.Success? ==>
      && Verifies(r.value, cfg)
      && r.value.claims.subject == details.username && r.value.claims.custom == map[]
      && r.value.claims.issuedAt == Some(now)
      && (MinLong <= now + cfg.lifetime <= MaxLong ==> r.value.claims.expiration == Some(now + cfg.lifetime))
  {
    CreateToken(map[], details.username, cfg, now)
  }

  /** With the default lifetime a token lives 24 hours. */
  lemma DefaultLifetimeIsOneDay(details: Details, secret: string, now: Long)
    requires StrongSecret(Config(secret, DefaultLifetime))
    requires now <= MaxLong - DefaultLifetime
    ensures GenerateToken(details, Config(secret, DefaultLifetime), now).Success?
    ensures GenerateToken(details, Config(secret, DefaultLifetime), now).value.claims.expiration
         == Some(now + 24 * 60 * 60 * 1000)
  {
  }

  /** The default secret is 16 bytes, half what HMAC-SHA256 needs: without a
      configured secret no token can be issued or read. */
  lemma DefaultSecretIsRefused(details: Details, t: Token, now: Long)
    ensures Utf8Length(DefaultSecret) == 16
    ensures GenerateToken(details, DefaultConfig, now) == Failure(JwtException(WeakKey))
    ensures ExtractAllClaims(t, DefaultConfig) == Failure(JwtException(WeakKey))
  {
    assert forall i :: 0 <= i < |DefaultSecret| ==> DefaultSecret[i] as int < 0x80;
  }

  /** `extractAllClaims(token)`: the parser's verdict; its exception is
      rethrown unchanged. The key is made before the text is looked at. */
  function ExtractAllClaims(t: Token, cfg: Config): (r: Result<Claims, Exception>)
    ensures r.Success? <==> Verifies(t, cfg)
    ensures r.Success? ==> r.value == t.claims
    ensures !StrongSecret(cfg) ==> r == Failure(JwtException(WeakKey))
    ensures StrongSecret(cfg) && t.Malformed? ==> r == Failure(JwtException(MalformedToken))
    ensures StrongSecret(cfg) && t.Signed? && t.key != Key(cfg.secret) ==> r == Failure(JwtException(SignatureMismatch))
  {
    var key :- SigningKey(cfg);
    match t
    case Malformed(_) => Failure(JwtException(MalformedToken))
    case Signed(claims, k) =>
      if k == key then Success(claims) else Failure(JwtException(SignatureMismatch))
  }

  /** `extractUsername(token)`: the subject claim, possibly absent. */
  function ExtractUsername(t: Token, cfg: Config): (r: Result<Option<string>, Exception>)
    ensures r.Success? <==> ExtractAllClaims(t, cfg).Success?
    ensures r.Success? ==> r.value == t.claims.subject
    ensures r.Failure? ==> r.error == ExtractAllClaims(t, cfg).error
  {
    var claims :- ExtractAllClaims(t, cfg);
    Success(claims.subject)
  }

  /** `extractExpiration(token)` */
  function ExtractExpiration(t: Token, cfg: Config): (r: Result<Option<Long>, Exception>)
    ensures r.Success? <==> ExtractAllClaims(t, cfg).Success?
    ensures r.Success? ==> r.value == t.claims.expiration
    ensures r.Failure? ==> r.error == ExtractAllClaims(t, cfg).error
  {
    var claims :- ExtractAllClaims(t, cfg);
    Success(claims.expiration)
  }

  /** `isTokenExpired(token)`: expired iff the expiration lies strictly before
      now; a token without one fails on the null date. */
  function IsTokenExpired(t: Token, cfg: Config, now: Long): (r: Result<bool, Exception>)
    ensures r.Success? <==> ExtractAllClaims(t, cfg).Success? && t.claims.expiration.Some?
    ensures r.Success? ==> (r.value <==> t.claims.expiration.value < now)
    ensures ExtractAllClaims(t, cfg).Success? && t.claims.expiration.None? ==>
      r == Failure(NullPointerException)
  {
    var exp :- ExtractExpiration(t, cfg);
    if exp.None? then Failure(NullPointerException) else Success(exp.value < now)
  }

  /** `validateToken(token, userDetails)`: the subject must equal the
      principal's username, and only then is expiry checked. */
  function ValidateToken(t: Token, details: Details, cfg: Config, now: Long): (r: Result<bool, Exception>)
    ensures r == Success(true) <==>
      && Verifies(t, cfg)
      && t.claims.subject.Some? && t.claims.subject == details.username
      && t.claims.expiration.Some? && now <= t.claims.expiration.value
    ensures ExtractAllClaims(t, cfg).Failure? ==> r == Failure(ExtractAllClaims(t, cfg).error)
    ensures ExtractAllClaims(t, cfg).Success? && t.claims.subject.None? ==> r == Failure(NullPointerException)
    ensures (ExtractAllClaims(t, cfg).Success? && t.claims.subject.Some?
             && t.claims.subject != details.username) ==> r == Success(false)
  {
    var username :- ExtractUsername(t, cfg);
    if username.None? then Failure(NullPointerException)
    else if username != details.username then Success(false)
    else
      var expired :- IsTokenExpired(t, cfg, now);
      Success(!expired)
  }

  /** Round trip: the username read back from an issued token is the
      principal's, under the same key. */
  lemma UsernameRoundTrip(details: Details, cfg: Config, now: Long)
    requires StrongSecret(cfg)
    ensures GenerateToken(details, cfg, now).Success?
    ensures ExtractUsername(GenerateToken(details, cfg, now).value, cfg) == Success(details.username)
  {
  }

  /** A token issued under one secret does not parse under another. */
  lemma OtherKeyRejects(details: Details, cfg: Config, other: Config, now: Long)
    requires StrongSecret(cfg) && StrongSecret(other)
    requires other.secret != cfg.secret
    ensures GenerateToken(details, cfg, now).Success?
    ensures ExtractAllClaims(GenerateToken(details, cfg, now).value, other) == Failure(JwtException(SignatureMismatch))
    ensures ValidateToken(GenerateToken(details, cfg, now).value, details, other, now) ==
      Failure(JwtException(SignatureMismatch))
  {
  }

  /** The expiry boundary: a token is still valid at the instant it expires
      and invalid one millisecond later. */
  lemma ExpiryIsStrict(details: Details, cfg: Config, now: Long)
    requires StrongSecret(cfg)
    requires details.username.Some?
    requires 0 <= cfg.lifetime && now + cfg.lifetime < MaxLong
    ensures GenerateToken(details, cfg, now).Success?
    ensures var t := GenerateToken(details, cfg, now).value;
      && IsTokenExpired(t, cfg, now + cfg.lifetime) == Success(false)
      && IsTokenExpired(t, cfg, now + cfg.lifetime + 1) == Success(true)
      && ValidateToken(t, details, cfg, now + cfg.lifetime) == Success(true)
      && ValidateToken(t, details, cfg, now + cfg.lifetime + 1) == Success(false)
  {
  }

  /** An issued token validates for its own principal exactly while unexpired. */
  lemma IssuedTokenValidity(details: Details, cfg: Config, now: Long, later: Long)
    requires StrongSecret(cfg)
    requires details.username.Some?
    requires MinLong <= now + cfg.lifetime <= MaxLong
    ensures GenerateToken(details, cfg, now).Success?
    ensures ValidateToken(GenerateToken(details, cfg, now).value, details, cfg, later) ==
      Success(later <= now + cfg.lifetime)
  {
  }

  /** A lifetime that overflows `long` yields a token that has already
      expired when it is issued. */
  lemma OverflowingLifetimeExpiresAtOnce(details: Details, cfg: Config, now: Long)
    requires StrongSecret(cfg) && cfg.lifetime == MaxLong
    requires details.username.Some?
    requires now > 0
    ensures GenerateToken(details, cfg, now).Success?
    ensures IsTokenExpired(GenerateToken(details, cfg, now).value, cfg, now) == Success(true)
  {
    var x := now + MaxLong;
    assert x - MinLong == (now - 1) + 0x1_0000_0000_0000_0000;
    assert (x - MinLong) % 0x1_0000_0000_0000_0000 == now - 1;
    assert WrapLong(x) == now - 1 + MinLong;
  }
}
