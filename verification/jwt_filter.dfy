/** `JwtAuthenticationFilter`: turns a bearer token into an authentication in
    the request's security context. The filter never answers the request
    itself: it only returns the (possibly updated) context, and the chain then
    carries on with it.

    The bytes after "Bearer " are decoded into a `Token` by `decode`, which
    stands for the compact-serialisation parser. */
module JwtFilter {

  import opened Wrappers
  import opened JavaText
  import opened UserEntity
  import opened Exceptions
  import opened UserRepository
  import opened UserDetails
  import opened UserDetailsService
  import opened Jwt

  const BearerPrefix := "Bearer "

  /** A principal with its credentials and granted authorities; every
      authentication the application builds is an authenticated one. */
  datatype Authentication = Authentication(
    principal: Details,
    credentials: Option<string>,
    authorities: seq<string>
  )

  /** The authentication held by the request's security context, if any. */
  type Context = Option<Authentication>

  /** A "Bearer " prefix carries a non-whitespace character, so such a header
      always has text. */
  lemma BearerHeaderHasText(h: string)
    requires StartsWith(h, BearerPrefix)
    ensures HasText(Some(h))
  {
    assert h[0] == BearerPrefix[0];
    assert !IsJavaWhitespace(h[0]);
  }

  /** `parseJwt(request)`: the header minus its first seven characters when it
      has text and starts with "Bearer " (case-sensitive); null otherwise. */
  function ParseJwt(header: Option<string>): (r: Option<string>)
    ensures r.Some? <==> header.Some? && StartsWith(header.value, BearerPrefix)
    ensures r.Some? ==> header.value == BearerPrefix + r.value
  {
    if header.Some? && StartsWith(header.value, BearerPrefix) then
      BearerHeaderHasText(header.value);
      if HasText(header) then
        assert header.value == header.value[..7] + header.value[7..];
        Some(header.value[7..])
      else None
    else None
  }

  /** The header "Bearer " alone yields an empty token, not null; the prefix
      in another case yields none. */
  lemma ParseJwtEdgeCases()
    ensures ParseJwt(Some("Bearer ")) == Some("")
    ensures ParseJwt(Some("bearer abc")) == None
    ensures ParseJwt(None) == None
    ensures ParseJwt(Some("Bearer")) == None
  {
    assert StartsWith("Bearer ", BearerPrefix);
    assert !StartsWith("bearer abc", BearerPrefix) by {
      assert "bearer abc"[0] != BearerPrefix[0];
    }
  }

  /** The authentication the filter stores for a loaded principal: no
      credentials, the principal's own authorities. */
  function Authenticated(details: Details): (a: Authentication)
    ensures a.principal == details && a.credentials.None?
    ensures a.authorities == details.authorities
  {
    Authentication(details, None, details.authorities)
  }

  /** Independent statement of when the filter authenticates a token: the
      configured key is strong enough and signed it, its subject is the username of the
      stored row `k` and of no other row, and it has not expired. */
  predicate AcceptsToken(t: Token, store: Store, cfg: Config, now: Long, k: Long)
  {
    && k in store
    && StrongSecret(cfg) && t.Signed? && t.key == Key(cfg.secret)
    && t.claims.subject.Some?
    && RowsWithUsername(store, t.claims.subject.value) == {k}
    && t.claims.expiration.Some? && now <= t.claims.expiration.value
  }

  /** The body of the `try` block once a token and an empty context are known:
      read the username, load the principal, validate, and yield the
      authentication or nothing. Exceptions are returned, not thrown. */
  function Attempt(t: Token, store: Store, cfg: Config, now: Long): (r: Result<Option<Authentication>, Exception>)
    ensures (r.Success? && r.value.Some?) <==> exists k :: AcceptsToken(t, store, cfg, now, k)
    ensures forall k :: AcceptsToken(t, store, cfg, now, k) ==>
      r == Success(Some(Authenticated(Build(store[k]))))
  {
    match ExtractUsername(t, cfg)
    case Failure(e) => Failure(e)
    case Success(username) =>
      if username.None? then Success(None)
      else
        match LoadUserByUsername(store, username.value)
        case Failure(e) => Failure(e)
        case Success(details) =>
          match ValidateToken(t, details, cfg, now)
          case Failure(e) => Failure(e)
          case Success(valid) =>
            var k := details.id.value;
            assert valid ==> AcceptsToken(t, store, cfg, now, k);
            if valid then Success(Some(Authenticated(details))) else Success(None)
  }

  /** `doFilterInternal`: the context after the filter has run. */
  function DoFilter(header: Option<string>, ctx: Context, store: Store, cfg: Config, now: Long,
                    decode: string -> Token): (r: Context)
    ensures ParseJwt(header).None? || ctx.Some? ==> r == ctx
    ensures r != ctx ==> ctx.None? && r.Some?
    ensures ctx.None? ==>
      (r.Some? <==> ParseJwt(header).Some? && exists k :: AcceptsToken(decode(ParseJwt(header).value), store, cfg, now, k))
    ensures forall k ::
      (ctx.None? && ParseJwt(header).Some?
       && AcceptsToken(decode(ParseJwt(header).value), store, cfg, now, k)) ==>
      r == Some(Authenticated(Build(store[k])))
  {
    var jwt := ParseJwt(header);
    if jwt.None? || ctx.Some? then ctx
    else
      match Attempt(decode(jwt.value), store, cfg, now)
      case Success(Some(a)) => Some(a)
      case _ => ctx
  }

  /** A principal put in the context carries exactly `ROLE_USER` and no
      credentials. */
  lemma FilterGrantsRoleUser(header: Option<string>, store: Store, cfg: Config, now: Long,
                             decode: string -> Token)
    requires DoFilter(header, None, store, cfg, now, decode).Some?
    ensures var a := DoFilter(header, None, store, cfg, now, decode).value;
      a.authorities == [RoleUser] && a.credentials.None?
      && a.principal.id.Some? && a.principal.id.value in store
      && a.principal == Build(store[a.principal.id.value])
  {
    var t := decode(ParseJwt(header).value);
    var k :| AcceptsToken(t, store, cfg, now, k);
  }

  /** Failures are swallowed: a key too short to use, a token that does not
      parse, one signed with another key, or one naming no stored user or a
      user stored twice leaves an empty context empty. */
  lemma FailuresLeaveContextEmpty(header: Option<string>, store: Store, cfg: Config, now: Long,
                                  decode: string -> Token)
    requires ParseJwt(header).Some?
    requires var t := decode(ParseJwt(header).value);
      || !StrongSecret(cfg)
      || t.Malformed?
      || (t.Signed? && t.key != Key(cfg.secret))
      || (t.Signed? && t.claims.subject.Some? && |RowsWithUsername(store, t.claims.subject.value)| != 1)
    ensures DoFilter(header, None, store, cfg, now, decode) == None
  {
  }
}
