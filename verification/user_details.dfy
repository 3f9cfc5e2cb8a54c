/** `UserDetailsImpl`: the security principal built from a stored `User`. */
module UserDetails {

  import opened Wrappers
  import opened UserEntity
  import Json

  /** The only authority any principal carries. */
  const RoleUser := "ROLE_USER"

  datatype Details = Details(
    id: Option<Long>,
    username: Option<string>,
    password: Option<string>,
    name: Option<string>,
    extension: Option<string>,
    authorities: seq<string>
  )

  /** The five-argument constructor: copies its arguments and grants the
      single `ROLE_USER` authority. */
  function NewDetails(id: Option<Long>, username: Option<string>, password: Option<string>,
                      name: Option<string>, extension: Option<string>): (d: Details)
    ensures d.id == id && d.username == username && d.password == password
    ensures d.name == name && d.extension == extension
    ensures d.authorities == [RoleUser]
  {
    Details(id, username, password, name, extension, [RoleUser])
  }

  /** `build(user)`: the principal for a stored row, with its stored password
      hash. */
  function Build(user: User): (d: Details)
    ensures d.id == user.id && d.username == user.username && d.password == user.password
    ensures d.name == user.name && d.extension == user.extension
    ensures d.authorities == [RoleUser]
  {
    NewDetails(user.id, user.username, user.password, user.name, user.extension)
  }

  /** The four account-status flags; none of them depends on the principal. */
  predicate AccountNonExpired(d: Details) { true }
  predicate AccountNonLocked(d: Details) { true }
  predicate CredentialsNonExpired(d: Details) { true }
  predicate Enabled(d: Details) { true }

  /** A principal whose account the authentication provider accepts. */
  predicate Usable(d: Details)
  {
    AccountNonExpired(d) && AccountNonLocked(d) && CredentialsNonExpired(d) && Enabled(d)
  }

  /** Every built principal is usable and carries exactly `ROLE_USER`. */
  lemma BuiltDetailsAreUsable(user: User)
    ensures Usable(Build(user))
    ensures Build(user).authorities == [RoleUser]
  {
  }

  // ---------------------------------------------------------------------------
  // equals and hashCode
  // ---------------------------------------------------------------------------

  /** `equals(o)`: `o` is a principal with the same id (two null ids are equal);
      nothing else is compared. */
  predicate Equals(a: Details, o: Option<Details>)
  {
    o.Some? && a.id == o.value.id
  }

  /** `equals` is an equivalence on principals. */
  lemma EqualsIsEquivalence(a: Details, b: Details, c: Details)
    ensures Equals(a, Some(a))
    ensures Equals(a, Some(b)) <==> Equals(b, Some(a))
    ensures Equals(a, Some(b)) && Equals(b, Some(c)) ==> Equals(a, Some(c))
    ensures !Equals(a, None)
  {
  }

  /** Two principals built from rows with the same id are equal, whatever
      their other fields. */
  lemma EqualsIgnoresProfile(u: User, v: User)
    requires u.id == v.id && u.name != v.name
    ensures Equals(Build(u), Some(Build(v)))
    ensures Build(u) != Build(v)
  {
  }

  const TwoTo32: int := 0x1_0000_0000
  const TwoTo64: int := 0x1_0000_0000_0000_0000

  type Int32 = x: int | -0x8000_0000 <= x < 0x8000_0000

  /** Java's narrowing of an integer to `int`: keep the low 32 bits, read them
      as two's complement. */
  function WrapInt(x: int): (r: Int32)
    ensures -0x8000_0000 <= x < 0x8000_0000 ==> r == x
    ensures (r - x) % TwoTo32 == 0
  {
    var low := x % TwoTo32;
    if low >= 0x8000_0000 then low - TwoTo32 else low
  }

  /** Bitwise exclusive or of two non-negative integers. */
  function Xor(a: nat, b: nat): nat
    decreases a + b
  {
    if a == 0 && b == 0 then 0
    else (a % 2 + b % 2) % 2 + 2 * Xor(a / 2, b / 2)
  }

  lemma {:induction false} XorZero(a: nat)
    ensures Xor(a, 0) == a
    decreases a
  {
    if a != 0 {
      XorZero(a / 2);
    }
  }

  lemma {:induction false} XorSelf(a: nat)
    ensures Xor(a, a) == 0
    decreases a
  {
    if a != 0 {
      XorSelf(a / 2);
    }
  }

  /** `Long.hashCode(v)`: the high and low halves of the 64-bit pattern xor-ed
      and narrowed to `int`. */
  function LongHash(v: Long): Int32
  {
    var bits := if v < 0 then v + TwoTo64 else v;
    WrapInt(Xor(bits % TwoTo32, bits / TwoTo32))
  }

  /** A non-negative id below 2^31 hashes to itself. */
  lemma LongHashOfSmall(v: Long)
    requires 0 <= v < 0x8000_0000
    ensures LongHash(v) == v
  {
    XorZero(v);
  }

  /** `-1` has all 64 bits set, so its halves cancel. */
  lemma LongHashOfMinusOne()
    ensures LongHash(-1) == 0
  {
    XorSelf(TwoTo32 - 1);
  }

  /** `hashCode()`: `Objects.hash(id)`, that is `31 * 1 + hash(id)` in `int`
      arithmetic, with a null id hashing to 0. */
  function HashCode(d: Details): (h: Int32)
    ensures d.id.None? ==> h == 31
    ensures d.id.Some? ==> (h - 31 - LongHash(d.id.value)) % TwoTo32 == 0
  {
    WrapInt(31 + (if d.id.None? then 0 else LongHash(d.id.value)))
  }

  /** Equal principals have equal hash codes. */
  lemma HashCodeRespectsEquals(a: Details, b: Details)
    requires Equals(a, Some(b))
    ensures HashCode(a) == HashCode(b)
  {
  }

  /** The hash does not decide equality: ids 0 and -1 collide. */
  lemma HashCodeCollision()
    ensures HashCode(NewDetails(Some(0), None, None, None, None))
         == HashCode(NewDetails(Some(-1), None, None, None, None))
    ensures !Equals(NewDetails(Some(0), None, None, None, None),
                    Some(NewDetails(Some(-1), None, None, None, None)))
  {
    LongHashOfSmall(0);
    LongHashOfMinusOne();
  }

  // ---------------------------------------------------------------------------
  // JSON view
  // ---------------------------------------------------------------------------

  function JsonText(s: Option<string>): Json.Value
  {
    if s.None? then Json.JNull else Json.JString(s.value)
  }

  /** The bean properties Jackson serialises; the password field is ignored. */
  function JsonView(d: Details): (j: map<string, Json.Value>)
    ensures "password" !in j
    ensures j.Keys == {"id", "username", "name", "extension", "authorities",
                       "accountNonExpired", "accountNonLocked", "credentialsNonExpired", "enabled"}
    ensures j["username"] == JsonText(d.username)
    ensures j["name"] == JsonText(d.name) && j["extension"] == JsonText(d.extension)
  {
    map[
      "id" := (if d.id.None? then Json.JNull else Json.JNumber(d.id.value)),
      "username" := JsonText(d.username),
      "name" := JsonText(d.name),
      "extension" := JsonText(d.extension),
      "authorities" := Json.JArray(seq(|d.authorities|, i requires 0 <= i < |d.authorities| =>
                          Json.JObject(map["authority" := Json.JString(d.authorities[i])]))),
      "accountNonExpired" := Json.JBool(AccountNonExpired(d)),
      "accountNonLocked" := Json.JBool(AccountNonLocked(d)),
      "credentialsNonExpired" := Json.JBool(CredentialsNonExpired(d)),
      "enabled" := Json.JBool(Enabled(d))
    ]
  }
}
