/** `SecurityConfig`: the access table of the filter chain and the order in
    which a request meets the JWT filter and the authorization decision.

    A request path is given as its list of segments ("/api/auth/login" is
    ["api", "auth", "login"]); a prefix pattern such as the one for
    "/api/auth" matches that path and every path below it. */
module Security {

  import opened Wrappers
  import opened UserEntity
  import opened UserRepository
  import opened UserDetails
  import opened Jwt
  import opened JwtFilter

  type Path = seq<string>

  datatype Matcher = Under(prefix: Path) | Exactly(path: Path) | AnyRequest

  datatype Access = PermitAll | RequireAuthentication

  datatype Rule = Rule(matcher: Matcher, access: Access)

  predicate Matches(m: Matcher, p: Path)
  {
    match m
    case Under(prefix) => |prefix| <= |p| && p[..|prefix|] == prefix
    case Exactly(q) => p == q
    case AnyRequest => true
  }

  const AuthPaths: Path := ["api", "auth"]
  const PingPath: Path := ["ping"]
  const UserPaths: Path := ["api", "users"]

  /** The `authorizeHttpRequests` table, in declaration order. */
  const Rules: seq<Rule> := [
    Rule(Under(AuthPaths), PermitAll),
    Rule(Exactly(PingPath), PermitAll),
    Rule(Under(UserPaths), RequireAuthentication),
    Rule(AnyRequest, RequireAuthentication)
  ]

  /** The first index of `rules` whose matcher accepts `p` is `i`. */
  predicate FirstMatchAt(rules: seq<Rule>, p: Path, i: int)
  {
    && 0 <= i < |rules| && Matches(rules[i].matcher, p)
    && forall j :: 0 <= j < i ==> !Matches(rules[j].matcher, p)
  }

  predicate NoneMatches(rules: seq<Rule>, p: Path)
  {
    forall i :: 0 <= i < |rules| ==> !Matches(rules[i].matcher, p)
  }

  /** Skipping a first rule that does not match shifts every index by one. */
  lemma SkipFirstRule(rules: seq<Rule>, p: Path)
    requires |rules| > 0 && !Matches(rules[0].matcher, p)
    ensures NoneMatches(rules[1..], p) <==> NoneMatches(rules, p)
    ensures forall i :: FirstMatchAt(rules[1..], p, i) ==> FirstMatchAt(rules, p, i + 1)
  {
    if NoneMatches(rules[1..], p) {
      forall i | 0 <= i < |rules| ensures !Matches(rules[i].matcher, p) {
        if i > 0 {
          assert rules[i] == rules[1..][i - 1];
        }
      }
    }
    forall i | FirstMatchAt(rules[1..], p, i) ensures FirstMatchAt(rules, p, i + 1) {
      forall j | 0 <= j < i + 1 ensures !Matches(rules[j].matcher, p) {
        if j > 0 {
          assert rules[j] == rules[1..][j - 1];
        }
      }
    }
  }

  /** The access of the first rule whose matcher accepts the path. */
  function FirstMatch(rules: seq<Rule>, p: Path): (r: Option<Access>)
    ensures r.None? <==> NoneMatches(rules, p)
    ensures r.Some? ==> exists i :: FirstMatchAt(rules, p, i) && r.value == rules[i].access
  {
    if |rules| == 0 then None
    else if Matches(rules[0].matcher, p) then
      assert FirstMatchAt(rules, p, 0);
      Some(rules[0].access)
    else
      var r := FirstMatch(rules[1..], p);
      SkipFirstRule(rules, p);
      if r.Some? then
        var i :| FirstMatchAt(rules[1..], p, i) && r.value == rules[1..][i].access;
        assert FirstMatchAt(rules, p, i + 1);
        r
      else r
  }

  /** Independent statement of the public part of the table. */
  predicate IsPublic(p: Path)
  {
    (|p| >= 2 && p[0] == "api" && p[1] == "auth") || p == PingPath
  }

  /** What the table requires of a path: the last rule matches everything, so
      every path gets an answer. */
  function Required(p: Path): (a: Access)
    ensures a == PermitAll <==> IsPublic(p)
  {
    var r := FirstMatch(Rules, p);
    assert Matches(Rules[3].matcher, p);
    assert Matches(Rules[0].matcher, p) <==> |p| >= 2 && p[0] == "api" && p[1] == "auth" by {
      if |p| >= 2 && p[0] == "api" && p[1] == "auth" {
        assert p[..2] == AuthPaths;
      }
    }
    var i :| FirstMatchAt(Rules, p, i) && r.value == Rules[i].access;
    assert i <= 1 <==> IsPublic(p) by {
      assert Matches(Rules[1].matcher, p) <==> p == PingPath;
      if IsPublic(p) {
        if !Matches(Rules[0].matcher, p) {
          assert Matches(Rules[1].matcher, p);
        }
      } else {
        assert !Matches(Rules[0].matcher, p) && !Matches(Rules[1].matcher, p);
      }
    }
    r.value
  }

  /** Every path under /api/users needs an authenticated request. */
  lemma UserPathsNeedAuthentication(p: Path)
    requires |p| >= 2 && p[..2] == UserPaths
    ensures Required(p) == RequireAuthentication
  {
    assert p[0] == "api" && p[1] == "users";
  }

  /** Login and health check are public; an unknown path is not. */
  lemma TableExamples()
    ensures Required(["api", "auth", "login"]) == PermitAll
    ensures Required(["ping"]) == PermitAll
    ensures Required(["ping", "x"]) == RequireAuthentication
    ensures Required(["api", "user", "save"]) == RequireAuthentication
    ensures Required([]) == RequireAuthentication
  {
  }

  const Unauthorized := 401

  datatype Decision = Proceed | Deny(status: int)

  /** The authorization filter: a public path, or a request whose context holds
      an authentication, proceeds; anything else is answered with 401. */
  function Authorize(p: Path, ctx: Context): (d: Decision)
    ensures d == Proceed <==> IsPublic(p) || ctx.Some?
    ensures d != Proceed ==> d == Deny(Unauthorized)
  {
    if Required(p) == PermitAll || ctx.Some? then Proceed else Deny(Unauthorized)
  }

  datatype Request = Request(path: Path, authorization: Option<string>)

  /** One request through the chain: the session is stateless, so the context
      starts empty; the JWT filter runs first and the authorization decision
      reads the context it leaves. */
  function Serve(req: Request, store: Store, cfg: Config, now: Long, decode: string -> Token): (d: Decision)
    ensures d == Proceed <==>
      || IsPublic(req.path)
      || (ParseJwt(req.authorization).Some?
          && exists k :: AcceptsToken(decode(ParseJwt(req.authorization).value), store, cfg, now, k))
    ensures d != Proceed ==> d == Deny(Unauthorized)
  {
    Authorize(req.path, DoFilter(req.authorization, None, store, cfg, now, decode))
  }

  /** Public paths proceed whatever the header carries. */
  lemma PublicPathsIgnoreTokens(req: Request, store: Store, cfg: Config, now: Long, decode: string -> Token)
    requires IsPublic(req.path)
    ensures Serve(req, store, cfg, now, decode) == Proceed
  {
  }

  /** A protected request without a bearer header is refused with 401. */
  lemma MissingTokenIsUnauthorized(path: Path, store: Store, cfg: Config, now: Long, decode: string -> Token)
    requires !IsPublic(path)
    ensures Serve(Request(path, None), store, cfg, now, decode) == Deny(Unauthorized)
  {
  }
}
