/** The request bodies (`LoginRequest`, `UserCreateRequest`,
    `UserUpdateRequest`) and their Bean Validation annotations, read as
    predicates that produce the set of violations a validator reports.

    `UserCreateRequest` as written declares only `name` and `extension`, but
    the mapper reads a username and a password from it and calls a
    four-argument constructor; the model carries both extra fields, without
    constraints, and the two-argument constructor leaves them null. */
module Requests {

  import opened Wrappers
  import opened JavaText

  /** Validation groups: `Create`, `Update` and `PartialUpdate` extend
      `Default`. */
  datatype Group = Default | Create | Update | PartialUpdate

  /** A constraint declared for group `declared` is checked when validating
      with `requested` iff `requested` is `declared` or extends it. */
  predicate Applies(declared: Group, requested: Group)
  {
    declared == requested || declared == Default
  }

  datatype Violation = Violation(field: string, message: string)

  // ---------------------------------------------------------------------------
  // The built-in constraints. Null satisfies @Size and @Pattern but not
  // @NotBlank; @Size counts UTF-16 units.
  // ---------------------------------------------------------------------------

  predicate NotBlank(v: Option<string>) { v.Some? && !IsBlank(v.value) }

  predicate SizeWithin(v: Option<string>, min: nat, max: nat)
  {
    v.None? || min <= Utf16Length(v.value) <= max
  }

  predicate NamePattern(v: Option<string>) { v.None? || MatchesName(v.value) }

  predicate DigitsPattern(v: Option<string>) { v.None? || MatchesDigits(v.value) }

  function Check(ok: bool, field: string, message: string): (r: set<Violation>)
    ensures ok ==> r == {}
    ensures !ok ==> r == {Violation(field, message)}
  {
    if ok then {} else {Violation(field, message)}
  }

  // ---------------------------------------------------------------------------
  // Field rules shared by the create and update bodies
  // ---------------------------------------------------------------------------

  const NameEmpty := "Name cannot be empty"
  const NameSize := "Name must be between 2 and 100 characters"
  const NameChars := "Name can only contain letters, spaces, hyphens, and apostrophes"
  const ExtensionEmpty := "Extension cannot be empty"
  const ExtensionSize := "Extension must be between 4 and 6 characters"
  const ExtensionChars := "Extension can only contain numbers"

  /** @NotBlank, @Size(2, 100) and @Pattern on `name`, each reported on its own. */
  function NameViolations(name: Option<string>): (r: set<Violation>)
    ensures r == {} <==>
      name.Some? && !IsBlank(name.value) && 2 <= Utf16Length(name.value) <= 100
      && MatchesName(name.value)
    ensures Violation("name", NameEmpty) in r <==> !NotBlank(name)
    ensures Violation("name", NameSize) in r <==> !SizeWithin(name, 2, 100)
    ensures Violation("name", NameChars) in r <==> !NamePattern(name)
    ensures forall v :: v in r ==> v.field == "name"
  {
    Check(NotBlank(name), "name", NameEmpty)
    + Check(SizeWithin(name, 2, 100), "name", NameSize)
    + Check(NamePattern(name), "name", NameChars)
  }

  /** @NotBlank, @Size(4, 6) and @Pattern on `extension`. */
  function ExtensionViolations(extension: Option<string>): (r: set<Violation>)
    ensures r == {} <==>
      extension.Some? && MatchesDigits(extension.value) && 4 <= |extension.value| <= 6
    ensures Violation("extension", ExtensionEmpty) in r <==> !NotBlank(extension)
    ensures Violation("extension", ExtensionSize) in r <==> !SizeWithin(extension, 4, 6)
    ensures Violation("extension", ExtensionChars) in r <==> !DigitsPattern(extension)
    ensures forall v :: v in r ==> v.field == "extension"
  {
    ExtensionRules(extension);
    Check(NotBlank(extension), "extension", ExtensionEmpty)
    + Check(SizeWithin(extension, 4, 6), "extension", ExtensionSize)
    + Check(DigitsPattern(extension), "extension", ExtensionChars)
  }

  /** The three extension annotations together say: present, all digits, and
      four to six characters long. */
  lemma ExtensionRules(v: Option<string>)
    ensures NotBlank(v) && SizeWithin(v, 4, 6) && DigitsPattern(v) <==>
      v.Some? && MatchesDigits(v.value) && 4 <= |v.value| <= 6
  {
    if v.Some? && MatchesDigits(v.value) {
      assert !IsTrimmable(v.value[0]);
      NameCharsAreBmp(v.value);
    }
  }

  // ---------------------------------------------------------------------------
  // LoginRequest: constraints in the default group
  // ---------------------------------------------------------------------------

  datatype LoginRequest = LoginRequest(username: Option<string>, password: Option<string>)

  const UsernameEmpty := "Username cannot be empty"
  const UsernameSize := "Username must be between 3 and 50 characters"
  const PasswordEmpty := "Password cannot be empty"
  const PasswordSize := "Password must be between 6 and 100 characters"

  function LoginViolations(req: LoginRequest): (r: set<Violation>)
    ensures r == {} <==>
      && NotBlank(req.username) && 3 <= Utf16Length(req.username.value) <= 50
      && NotBlank(req.password) && 6 <= Utf16Length(req.password.value) <= 100
    ensures Violation("username", UsernameEmpty) in r <==> !NotBlank(req.username)
    ensures Violation("username", UsernameSize) in r <==> !SizeWithin(req.username, 3, 50)
    ensures Violation("password", PasswordEmpty) in r <==> !NotBlank(req.password)
    ensures Violation("password", PasswordSize) in r <==> !SizeWithin(req.password, 6, 100)
    ensures forall v :: v in r ==> v.field in {"username", "password"}
  {
    Check(NotBlank(req.username), "username", UsernameEmpty)
    + Check(SizeWithin(req.username, 3, 50), "username", UsernameSize)
    + Check(NotBlank(req.password), "password", PasswordEmpty)
    + Check(SizeWithin(req.password, 6, 100), "password", PasswordSize)
  }

  /** The username is not restricted to letters, digits and underscore: any
      characters pass as long as the length fits. */
  lemma LoginUsernameHasNoCharacterClass()
    ensures LoginViolations(LoginRequest(Some("a b!"), Some("secret"))) == {}
  {
    assert !IsTrimmable("a b!"[0]) && !IsTrimmable("secret"[0]);
    assert Utf16Length("a b!") == 4;
    assert Utf16Length("secret") == 6;
  }

  // ---------------------------------------------------------------------------
  // UserCreateRequest and UserUpdateRequest
  // ---------------------------------------------------------------------------

  datatype CreateRequest = CreateRequest(
    username: Option<string>,
    password: Option<string>,
    name: Option<string>,
    extension: Option<string>
  )

  datatype UpdateRequest = UpdateRequest(name: Option<string>, extension: Option<string>)

  /** `new UserCreateRequest(name, extension)` */
  function NewCreateRequest(name: Option<string>, extension: Option<string>): (r: CreateRequest)
    ensures r.name == name && r.extension == extension
    ensures r.username.None? && r.password.None?
  {
    CreateRequest(None, None, name, extension)
  }

  function CreateWithName(req: CreateRequest, name: Option<string>): (r: CreateRequest)
    ensures r.name == name && r == req.(name := r.name)
  {
    req.(name := name)
  }

  function CreateWithExtension(req: CreateRequest, extension: Option<string>): (r: CreateRequest)
    ensures r.extension == extension && r == req.(extension := r.extension)
  {
    req.(extension := extension)
  }

  function UpdateWithName(req: UpdateRequest, name: Option<string>): (r: UpdateRequest)
    ensures r.name == name && r.extension == req.extension
  {
    req.(name := name)
  }

  function UpdateWithExtension(req: UpdateRequest, extension: Option<string>): (r: UpdateRequest)
    ensures r.extension == extension && r.name == req.name
  {
    req.(extension := extension)
  }

  /** All constraints of `UserCreateRequest` are declared for `Create` only. */
  function CreateViolations(req: CreateRequest, group: Group): (r: set<Violation>)
    ensures !Applies(Group.Create, group) ==> r == {}
    ensures group == Group.Create ==> r == NameViolations(req.name) + ExtensionViolations(req.extension)
  {
    if Applies(Group.Create, group) then NameViolations(req.name) + ExtensionViolations(req.extension)
    else {}
  }

  /** All constraints of `UserUpdateRequest` are declared for `Update` only. */
  function UpdateViolations(req: UpdateRequest, group: Group): (r: set<Violation>)
    ensures !Applies(Group.Update, group) ==> r == {}
    ensures group == Group.Update ==> r == NameViolations(req.name) + ExtensionViolations(req.extension)
  {
    if Applies(Group.Update, group) then NameViolations(req.name) + ExtensionViolations(req.extension)
    else {}
  }

  /** Validating with the default group, or with the other operation's group,
      checks nothing on either body. */
  lemma GroupsAreExclusive(c: CreateRequest, u: UpdateRequest)
    ensures CreateViolations(c, Default) == {} && CreateViolations(c, Group.Update) == {}
    ensures CreateViolations(c, PartialUpdate) == {}
    ensures UpdateViolations(u, Default) == {} && UpdateViolations(u, Group.Create) == {}
    ensures UpdateViolations(u, PartialUpdate) == {}
  {
  }

  /** The reserved extensions are well-formed as far as the annotations go. */
  lemma ReservedExtensionsPassAnnotations()
    ensures ExtensionViolations(Some("0000")) == {}
    ensures ExtensionViolations(Some("9999")) == {}
  {
  }

  /** A ten-digit extension breaks the size rule of the update body. */
  lemma TenDigitExtensionRejectedOnUpdate(name: string)
    ensures Violation("extension", ExtensionSize)
      in UpdateViolations(UpdateRequest(Some(name), Some("1234567890")), Group.Update)
  {
    TenDigitsBreakSize();
    var req := UpdateRequest(Some(name), Some("1234567890"));
    assert UpdateViolations(req, Group.Update) == NameViolations(req.name) + ExtensionViolations(req.extension);
  }

  /** Ten characters are at least ten UTF-16 units, too many for the size rule. */
  lemma TenDigitsBreakSize()
    ensures Violation("extension", ExtensionSize) in ExtensionViolations(Some("1234567890"))
  {
    var ext := "1234567890";
    assert Utf16Length(ext) >= |ext| == 10;
    assert Check(SizeWithin(Some(ext), 4, 6), "extension", ExtensionSize) == {Violation("extension", ExtensionSize)};
  }

}
