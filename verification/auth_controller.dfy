/** `AuthController.authenticateUser`: the login endpoint.

    The authentication manager is a parameter: a function from the submitted
    credentials to an authentication or an exception. `StoreAuthenticator` is
    the provider the configuration wires in (principal looked up through
    `UserDetailsServiceImpl`, password compared by an encoder given as a
    parameter), used to relate a login to the requests that follow it. */
module AuthController {

  import opened Wrappers
  import opened JavaText
  import opened UserEntity
  import opened Exceptions
  import opened Requests
  import opened UserRepository
  import opened UserDetails
  import opened UserDetailsService
  import opened Jwt
  import opened JwtFilter
  import opened Security

  /** The unauthenticated token handed to the authentication manager. */
  datatype Credentials = Credentials(username: Option<string>, password: Option<string>)

  /** The success body: the token, the principal's username and name. */
  datatype JwtResponse = JwtResponse(token: Token, username: Option<string>, name: Option<string>)

  datatype Reply =
    | Ok(body: JwtResponse)
    /** A 400 whose body is the given text */
    | Refused(message: string)
    /** The `@Valid` request body broke its constraints */
    | InvalidInput(violations: set<Violation>)

  const InvalidCredentialsMessage := "Invalid username or password"

  function Status(r: Reply): int
  {
    if r.Ok? then 200 else BadRequest
  }

  /** The login: the reply and the security context afterwards. The context is
      set as soon as authentication succeeds, before the token is made, and the
      handler that catches a failure does not clear it. */
  function Login(req: LoginRequest, authenticate: Credentials -> Result<Authentication, Exception>,
                 ctx: Context, cfg: Config, now: Long): (r: (Reply, Context))
    ensures LoginViolations(req) != {} ==> r == (InvalidInput(LoginViolations(req)), ctx)
    ensures LoginViolations(req) == {} ==>
      var outcome := authenticate(Credentials(req.username, req.password));
      && (outcome.Failure? ==> r == (Refused(InvalidCredentialsMessage), ctx))
      && (outcome.Success? ==> r.1 == Some(outcome.value))
      && (outcome.Success? && !StrongSecret(cfg) ==> r.0 == Refused(InvalidCredentialsMessage))
      && (outcome.Success? && StrongSecret(cfg) ==>
            var p := outcome.value.principal;
            r.0 == Ok(JwtResponse(GenerateToken(p, cfg, now).value, p.username, p.name)))
    ensures Status(r.0) == 200 <==> r.0.Ok?
    ensures r.0.Refused? ==> r.0.message == "Invalid username or password"
    ensures r.0.Ok? ==> Verifies(r.0.body.token, cfg) && r.0.body.token.claims.subject == r.0.body.username
  {
    var violations := LoginViolations(req);
    if violations != {} then (InvalidInput(violations), ctx)
    else
      match authenticate(Credentials(req.username, req.password))
      case Failure(_) => (Refused(InvalidCredentialsMessage), ctx)
      case Success(a) =>
        var p := a.principal;
        match GenerateToken(p, cfg, now)
        case Failure(_) => (Refused(InvalidCredentialsMessage), Some(a))
        case Success(t) => (Ok(JwtResponse(t, p.username, p.name)), Some(a))
  }

  /** With the default secret a correct login is still refused, because no
      token can be signed, yet the context keeps the authentication. */
  lemma DefaultSecretRefusesCorrectLogin(req: LoginRequest,
                                         authenticate: Credentials -> Result<Authentication, Exception>,
                                         ctx: Context, now: Long)
    requires LoginViolations(req) == {}
    requires authenticate(Credentials(req.username, req.password)).Success?
    ensures Login(req, authenticate, ctx, DefaultConfig, now) ==
      (Refused(InvalidCredentialsMessage), Some(authenticate(Credentials(req.username, req.password)).value))
  {
    DefaultSecretIsRefused(authenticate(Credentials(req.username, req.password)).value.principal,
                           Malformed(""), now);
  }

  /** Every authentication failure produces the same reply and leaves the
      context as it was, whatever the exception. */
  lemma FailuresAreIndistinguishable(req: LoginRequest,
                                     first: Credentials -> Result<Authentication, Exception>,
                                     second: Credentials -> Result<Authentication, Exception>,
                                     ctx: Context, cfg: Config, now: Long)
    requires LoginViolations(req) == {}
    requires first(Credentials(req.username, req.password)).Failure?
    requires second(Credentials(req.username, req.password)).Failure?
    ensures Login(req, first, ctx, cfg, now) == Login(req, second, ctx, cfg, now)
    ensures Login(req, first, ctx, cfg, now) == (Refused(InvalidCredentialsMessage), ctx)
  {
  }

  // ---------------------------------------------------------------------------
  // The configured provider
  // ---------------------------------------------------------------------------

  /** The name the provider looks up when the credentials carry none. */
  const NoneProvided := "NONE_PROVIDED"

  /** The provider: look the principal up, hide "no such user" behind bad
      credentials, compare the presented password with the stored hash through
      `matches`, and on success yield the principal without credentials. */
  function StoreAuthenticator(store: Store, matches: (string, string) -> bool, c: Credentials): (r: Result<Authentication, Exception>)
    ensures r.Success? <==>
      && |RowsWithUsername(store, if c.username.Some? then c.username.value else NoneProvided)| == 1
      && c.password.Some?
      && LoadUserByUsername(store, if c.username.Some? then c.username.value else NoneProvided).value.password.Some?
      && matches(c.password.value,
                 LoadUserByUsername(store, if c.username.Some? then c.username.value else NoneProvided).value.password.value)
    ensures r.Success? ==>
      r.value == Authenticated(LoadUserByUsername(store, if c.username.Some? then c.username.value else NoneProvided).value)
    ensures RowsWithUsername(store, if c.username.Some? then c.username.value else NoneProvided) == {} ==>
      r == Failure(BadCredentialsException)
  {
    var username := if c.username.Some? then c.username.value else NoneProvided;
    match LoadUserByUsername(store, username)
    case Failure(UsernameNotFoundException(_)) => Failure(BadCredentialsException)
    case Failure(e) => Failure(e)
    case Success(details) =>
      if !Usable(details) || c.password.None? || details.password.None? then Failure(BadCredentialsException)
      else if !matches(c.password.value, details.password.value) then Failure(BadCredentialsException)
      else Success(Authenticated(details))
  }

  /** An unknown username and a wrong password for a known one fail alike,
      with bad credentials, so the login cannot tell them apart (see
      `FailuresAreIndistinguishable`). */
  lemma UnknownUserLooksLikeWrongPassword(store: Store, matches: (string, string) -> bool,
                                          unknown: string, password: Option<string>,
                                          known: string, guess: string)
    requires !ExistsByUsername(store, unknown)
    requires UniqueUsernames(store)
    requires forall k :: k in store && store[k].username == Some(known) ==>
      store[k].password.None? || !matches(guess, store[k].password.value)
    ensures StoreAuthenticator(store, matches, Credentials(Some(unknown), password)) == Failure(BadCredentialsException)
    ensures StoreAuthenticator(store, matches, Credentials(Some(known), Some(guess))) == Failure(BadCredentialsException)
  {
    UnknownUsernameIsReported(store, unknown);
    if ExistsByUsername(store, known) {
      var k :| k in store && store[k].username == Some(known);
      LoadFindsTheStoredRow(store, known, k);
    } else {
      UnknownUsernameIsReported(store, known);
    }
  }

  /** A bearer header carries back exactly the text placed after the prefix. */
  lemma BearerRoundTrip(text: string)
    ensures ParseJwt(Some(BearerPrefix + text)) == Some(text)
  {
    var h := BearerPrefix + text;
    assert h[..|BearerPrefix|] == BearerPrefix;
  }

  /** A token obtained by logging in opens every path until it expires: a
      request that carries it, with the store unchanged, is authenticated as
      the principal the login returned. */
  lemma LoginTokenAuthenticatesLaterRequests(store: Store, matches: (string, string) -> bool,
                                             req: LoginRequest, cfg: Config, now: Long, later: Long,
                                             path: Path, text: string, decode: string -> Token)
    requires 0 <= cfg.lifetime && now + cfg.lifetime <= MaxLong
    requires now <= later <= now + cfg.lifetime
    requires Login(req, c => StoreAuthenticator(store, matches, c), None, cfg, now).0.Ok?
    requires decode(text) == Login(req, c => StoreAuthenticator(store, matches, c), None, cfg, now).0.body.token
    ensures DoFilter(Some(BearerPrefix + text), None, store, cfg, later, decode)
         == Login(req, c => StoreAuthenticator(store, matches, c), None, cfg, now).1
    ensures Serve(Request(path, Some(BearerPrefix + text)), store, cfg, later, decode) == Proceed
  {
    var c := Credentials(req.username, req.password);
    var username := if c.username.Some? then c.username.value else NoneProvided;
    var a := StoreAuthenticator(store, matches, c);
    assert a.Success? && StrongSecret(cfg);
    var details := LoadUserByUsername(store, username).value;
    var k := details.id.value;
    BearerRoundTrip(text);
    assert AcceptsToken(decode(text), store, cfg, later, k);
  }
}
