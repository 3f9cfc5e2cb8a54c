# VoIP user management API: a Dafny model of its validation and authentication logic

This project models the decision logic of a Spring Boot service that manages VoIP users. Each user has a name and a phone extension. The model covers these parts:

- **Validation service.** Ordered checks on the extension and name, with the first failure deciding the message. It also has a rule that only a changed extension is checked, and it assembles a `ValidationException` message from the bean validator's violations.
- **Request bodies.** The Bean Validation annotations on the three request bodies, read as predicates per validation group.
- **JWT utilities.** Issuing, parsing and validating tokens.
- **JWT filter.** The per-request filter that turns a bearer token into an authentication in the security context.
- **Access table.** The security configuration's table and the filter-then-authorize order.
- **Login endpoint.**
- **User details.** The principal type (`UserDetailsImpl`) and its lookup service.
- **Mapper.** Conversions between requests and entities.
- **Store.** The user service, the repository and the `User` entity.
- **Exception handler.** The mapping from exceptions to HTTP responses.

The model is functional:

- A Java `null` is an `Option`.
- A thrown exception is the `Failure`/`Fail` arm of a `Result`/`Outcome`.
- A mutated object is returned as its new value.
- The database is a map from `long` key to row.
- The wall clock is a parameter `now` in milliseconds.

One module per component:

| module | file | models |
|---|---|---|
| `Wrappers` | wrappers.dfy | `Option`, `Result`, `Outcome` |
| `JavaText` | java_text.dfy | `String.trim`, UTF-16 `length`, the two regular expressions, `Character.isWhitespace`, `StringUtils.hasText`, `%d`, `Collectors.joining` |
| `UserEntity` | user.dfy | the `User` entity, `long` arithmetic |
| `Json` | json.dfy | JSON values of response bodies |
| `Exceptions` | exceptions.dfy | exception kinds, `GlobalExceptionHandler` |
| `UserRepository` | repository.dfy | `UserRepository` over a map store |
| `UserService` | user_service.dfy | `UserService` |
| `Requests` | requests.dfy | `LoginRequest`, `UserCreateRequest`, `UserUpdateRequest` and their constraints |
| `UserMapper` | user_mapper.dfy | `UserMapper` |
| `UserDetails` | user_details.dfy | `UserDetailsImpl` |
| `UserDetailsService` | user_details_service.dfy | `UserDetailsServiceImpl` |
| `Jwt` | jwt.dfy | `JwtUtils` |
| `JwtFilter` | jwt_filter.dfy | `JwtAuthenticationFilter` |
| `Security` | security.dfy | the access table and chain order of `SecurityConfig` |
| `AuthController` | auth_controller.dfy | `AuthController.authenticateUser` and the configured authentication provider |
| `Validation` | validation.dfy | `UserValidationService` |

Some things in the code do not fit together, and the model resolves them as follows:

- The `User` entity declares only `id`, `name` and `extension`. The mapper, the principal and the repository also read and write a `username` and a `password`, so the model's `User` carries all five fields.
- `UserCreateRequest` declares only `name` and `extension`. The mapper reads a username and a password from it and calls a four-argument constructor, so the model's request carries the two extra fields without constraints. The two-argument constructor leaves them null.
- The entity carries no constraint annotations, so as written the bean validator reports nothing for it, and `validateUser` passes every non-null user. The model still takes what the validator reports as a parameter of `validateUser`, a list of (property path, message) pairs, so that the message assembly is stated for any list the entity's constraints could produce.
- The default `jwt.secret`, `defaultSecretKey`, is 16 bytes, and an HMAC-SHA256 key needs at least 32. Without a configured secret, no token can be issued or read, so a correct login still gets the 400 reply, after its authentication has been put into the context. The model keeps this behaviour.

## Model

| member | source | states |
|---|---|---|
| `JavaText.Trim` | src/main/java/com/voip/voip_user_mgmt_api/services/UserValidationService.java:149-160 | the result is the contiguous part of the input left after removing a leading and a trailing run of characters at most U+0020. It is empty iff every character is such a character, and otherwise neither of its ends is one |
| `JavaText.TrimOfUntrimmedEnds` | src/main/java/com/voip/voip_user_mgmt_api/services/UserValidationService.java:154-164 | a string with no blank or control character at either end is its own trim |
| `JavaText.Utf16Length` | src/main/java/com/voip/voip_user_mgmt_api/dto/LoginRequest.java:25 | `length()` counts UTF-16 units: between the number of characters and twice that, and equal to it when all characters lie in the Basic Multilingual Plane |
| `JavaText.NameCharsAreBmp` | src/main/java/com/voip/voip_user_mgmt_api/services/UserValidationService.java:120-125 | a string matching the digit or the name pattern has as many UTF-16 units as characters |
| `JavaText.ShowNat` | src/main/java/com/voip/voip_user_mgmt_api/Entity/User.java:70-72 | `%d` of a natural number is a non-empty digit string without a leading zero |
| `JavaText.ParseShowNat` | src/main/java/com/voip/voip_user_mgmt_api/Entity/User.java:70-72 | reading the decimal rendering back gives the number |
| `JavaText.ShowInt` | src/main/java/com/voip/voip_user_mgmt_api/Entity/User.java:70-72 | `%d` of an integer is non-empty and starts with '-' iff the integer is negative |
| `JavaText.ParseShowInt` | src/main/java/com/voip/voip_user_mgmt_api/Entity/User.java:70-72 | the rendering of any integer reads back as that integer |
| `JavaText.JoinKeepsParts` | src/main/java/com/voip/voip_user_mgmt_api/services/UserValidationService.java:78-80 | joining with a separator keeps every part verbatim at its offset |
| `UserEntity.WrapLong` | src/main/java/com/voip/voip_user_mgmt_api/security/JwtUtils.java:188 | `long` addition: the identity within range, otherwise congruent to the exact sum modulo 2^64 |
| `UserEntity.NewUser` | src/main/java/com/voip/voip_user_mgmt_api/Entity/User.java:31-32 | the no-argument constructor leaves every field null |
| `UserEntity.NewUserWithId` | src/main/java/com/voip/voip_user_mgmt_api/Entity/User.java:34-38 | the three-argument constructor sets id, name and extension and nothing else |
| `UserEntity.NewUserWithoutId` | src/main/java/com/voip/voip_user_mgmt_api/Entity/User.java:39-42 | the two-argument constructor sets name and extension and leaves the id null |
| `UserEntity.SetId` | src/main/java/com/voip/voip_user_mgmt_api/Entity/User.java:48-50 | sets the id; every other field is unchanged |
| `UserEntity.SetName` | src/main/java/com/voip/voip_user_mgmt_api/Entity/User.java:56-58 | sets the name; every other field is unchanged |
| `UserEntity.SetExtension` | src/main/java/com/voip/voip_user_mgmt_api/Entity/User.java:64-66 | sets the extension; every other field is unchanged |
| `UserEntity.SetUsername` | src/main/java/com/voip/voip_user_mgmt_api/dto/UserMapper.java:19 | sets the username; every other field is unchanged |
| `UserEntity.SetPassword` | src/main/java/com/voip/voip_user_mgmt_api/dto/UserMapper.java:20 | sets the password; every other field is unchanged |
| `UserEntity.ToString` | src/main/java/com/voip/voip_user_mgmt_api/Entity/User.java:68-73 | the text starts with `Customer[id=` and ends with `']` |
| `UserEntity.ToStringShowsId` | src/main/java/com/voip/voip_user_mgmt_api/Entity/User.java:68-73 | for a user with an id, the text after `Customer[id=` starts with the id's decimal rendering, which reads back as the id |
| `UserEntity.RenderKeepsFields` | src/main/java/com/voip/voip_user_mgmt_api/Entity/User.java:70-72 | each of the three arguments of the format string sits verbatim at its offset in the text, and the text has exactly the length of the pieces |
| `UserEntity.ToStringShowsFields` | src/main/java/com/voip/voip_user_mgmt_api/Entity/User.java:68-73 | the name sits after `, name='` and the extension after `', extension='`, each verbatim, with "null" for a null field (a null id also shows as "null"), and the text ends right after the extension with `']` |
| `Exceptions.CollectFieldErrors` | src/main/java/com/voip/voip_user_mgmt_api/exceptions/GlobalExceptionHandler.java:47-50 | the field-error map has one key per field with an error, and each value is the message of the last error on that field |
| `Exceptions.Handle` | src/main/java/com/voip/voip_user_mgmt_api/exceptions/GlobalExceptionHandler.java:22-70 | the body always has error, message and status, and status equals the HTTP status. The status is 400 iff the exception is a `ValidationException` or an argument-binding failure, and 500 otherwise. A validation error's message is passed through. A binding failure adds `fieldErrors` with message "Invalid input parameters". Anything else gets the generic message, never its own |
| `UserRepository.FindById` | src/main/java/com/voip/voip_user_mgmt_api/repository/UserRepository.java:11 | present iff the key is stored, and then the row under that key, which carries the key as its id |
| `UserRepository.SingleResult` | src/main/java/com/voip/voip_user_mgmt_api/repository/UserRepository.java:15-17 | an `Optional` query is empty for no match and gives the row for one match. It fails with the match count for several |
| `UserRepository.ExistsByUsernameAgreesWithFind` | src/main/java/com/voip/voip_user_mgmt_api/repository/UserRepository.java:15-21 | `existsByUsername` holds iff `findByUsername` finds a row or fails on several; with unique usernames, iff it finds one |
| `UserRepository.ExistsByExtensionAgreesWithFind` | src/main/java/com/voip/voip_user_mgmt_api/repository/UserRepository.java:17-19 | `existsByExtension` holds iff `findByExtension` finds a row or fails on several; with unique extensions, iff it finds one |
| `UserRepository.Query` | src/main/java/com/voip/voip_user_mgmt_api/repository/UserRepository.java:13 | a list query returns every stored row satisfying the condition, and only those, each once |
| `UserRepository.FindAll` | src/main/java/com/voip/voip_user_mgmt_api/services/UserService.java:25-27 | returns every stored row, each once |
| `UserRepository.FindByName` | src/main/java/com/voip/voip_user_mgmt_api/repository/UserRepository.java:13 | returns every row with exactly that name, each once |
| `UserRepository.FirstFree` | src/main/java/com/voip/voip_user_mgmt_api/Entity/User.java:23-25 | the least integer at or above the start that is not in use |
| `UserRepository.FreshId` | src/main/java/com/voip/voip_user_mgmt_api/Entity/User.java:23-25 | a generated id is positive and not the key of any stored row |
| `UserRepository.Save` | src/main/java/com/voip/voip_user_mgmt_api/repository/UserRepository.java:11 | the saved row has an id and is stored under it. A row without an id gets a fresh one, and a row with an id keeps it. All other rows are untouched |
| `UserRepository.DeleteById` | src/main/java/com/voip/voip_user_mgmt_api/repository/UserRepository.java:11 | removes exactly that key, absent or not; every other row is unchanged |
| `UserService.SaveUser` | src/main/java/com/voip/voip_user_mgmt_api/services/UserService.java:22-24 | the saved row is in the store afterwards, with only its key added to the key set and every other row unchanged |
| `UserService.GetAllUsers` | src/main/java/com/voip/voip_user_mgmt_api/services/UserService.java:25-27 | the list holds exactly the stored rows |
| `UserService.SaveThenList` | src/main/java/com/voip/voip_user_mgmt_api/services/UserService.java:22-27 | after `saveUser(u)`, `getAllUsers()` contains u with its assigned id |
| `UserService.DeleteUserById` | src/main/java/com/voip/voip_user_mgmt_api/services/UserService.java:28-30 | removes the row with that id and no other |
| `UserService.UpdateUser` | src/main/java/com/voip/voip_user_mgmt_api/services/UserService.java:31-39 | an absent id leaves the store as it was. A present id gets the given name and extension, nulls included, and keeps its id, username and password. A null user fails on the dereference, and no other row changes |
| `UserService.UpdateUserIdempotent` | src/main/java/com/voip/voip_user_mgmt_api/services/UserService.java:31-39 | applying the same update twice leaves the store as applying it once |
| `Requests.NameViolations` | src/main/java/com/voip/voip_user_mgmt_api/dto/UserCreateRequest.java:13-16 | no violation iff the name is present, not blank, 2..100 UTF-16 units long and fully matches the name pattern. Each annotation's message is reported iff that annotation fails: "cannot be empty" iff null or blank, the size message iff non-null and outside 2..100 units, the pattern message iff non-null and not matching. Every violation is on the name field |
| `Requests.ExtensionViolations` | src/main/java/com/voip/voip_user_mgmt_api/dto/UserCreateRequest.java:18-21 | no violation iff the extension is present, all digits and 4..6 characters long. Each annotation's message is reported iff that annotation fails: "cannot be empty" iff null or blank, the size message iff non-null and outside 4..6 units, "can only contain numbers" iff non-null and not all digits. Every violation is on the extension field |
| `Requests.ExtensionRules` | src/main/java/com/voip/voip_user_mgmt_api/dto/UserUpdateRequest.java:18-20 | the three extension annotations together mean: present, all digits, 4..6 characters |
| `Requests.LoginViolations` | src/main/java/com/voip/voip_user_mgmt_api/dto/LoginRequest.java:24-34 | no violation iff the username is non-blank and 3..50 units long, and the password is non-blank and 6..100 units long. Each of the four messages is reported iff its own annotation fails, on its own field |
| `Requests.LoginUsernameHasNoCharacterClass` | src/main/java/com/voip/voip_user_mgmt_api/dto/LoginRequest.java:20-26 | a username with a space and a '!' passes: the "alphanumeric and underscore" of the comment is not enforced |
| `Requests.NewCreateRequest` | src/main/java/com/voip/voip_user_mgmt_api/dto/UserCreateRequest.java:26-29 | the constructor stores exactly the given name and extension |
| `Requests.CreateWithName` | src/main/java/com/voip/voip_user_mgmt_api/dto/UserCreateRequest.java:36-38 | sets the name and nothing else |
| `Requests.CreateWithExtension` | src/main/java/com/voip/voip_user_mgmt_api/dto/UserCreateRequest.java:44-46 | sets the extension and nothing else |
| `Requests.UpdateWithName` | src/main/java/com/voip/voip_user_mgmt_api/dto/UserUpdateRequest.java:36-38 | sets the name and keeps the extension |
| `Requests.UpdateWithExtension` | src/main/java/com/voip/voip_user_mgmt_api/dto/UserUpdateRequest.java:44-46 | sets the extension and keeps the name |
| `Requests.CreateViolations` | src/main/java/com/voip/voip_user_mgmt_api/dto/UserCreateRequest.java:13-21 | the create body is checked only in a group that extends `Create`, where its name and extension rules apply |
| `Requests.UpdateViolations` | src/main/java/com/voip/voip_user_mgmt_api/dto/UserUpdateRequest.java:13-21 | the update body is checked only in a group that extends `Update`, where its name and extension rules apply |
| `Requests.GroupsAreExclusive` | src/main/java/com/voip/voip_user_mgmt_api/Entity/ValidationGroups.java:6-10 | validating either body in the default group, or in the other operation's group, reports nothing |
| `Requests.ReservedExtensionsPassAnnotations` | src/main/java/com/voip/voip_user_mgmt_api/dto/UserCreateRequest.java:18-20 | "0000" and "9999" satisfy the extension annotations |
| `Requests.TenDigitExtensionRejectedOnUpdate` | src/main/java/com/voip/voip_user_mgmt_api/dto/UserUpdateRequest.java:19 | "1234567890" breaks the update body's size rule, whatever the name |
| `UserMapper.CreateToEntity` | src/main/java/com/voip/voip_user_mgmt_api/dto/UserMapper.java:13-24 | null gives null; otherwise an entity without id that has the request's username, password, name and extension |
| `UserMapper.UpdateToEntity` | src/main/java/com/voip/voip_user_mgmt_api/dto/UserMapper.java:29-38 | null gives null; otherwise an entity with only name and extension set |
| `UserMapper.UpdateEntity` | src/main/java/com/voip/voip_user_mgmt_api/dto/UserMapper.java:43-55 | a null entity or request changes nothing. A non-null request field overwrites the entity's field and a null one keeps it. Id, username and password never change |
| `UserMapper.UpdateEntityIdempotent` | src/main/java/com/voip/voip_user_mgmt_api/dto/UserMapper.java:43-55 | applying the same update twice equals applying it once |
| `UserMapper.UpdateEntityWithNullsIsNoop` | src/main/java/com/voip/voip_user_mgmt_api/dto/UserMapper.java:48-54 | a request whose fields are both null leaves the entity unchanged |
| `UserMapper.EntityToCreateRequest` | src/main/java/com/voip/voip_user_mgmt_api/dto/UserMapper.java:60-66 | null gives null; otherwise a request carrying the entity's username, password, name and extension |
| `UserMapper.EntityToUpdateRequest` | src/main/java/com/voip/voip_user_mgmt_api/dto/UserMapper.java:71-77 | null gives null; otherwise a request carrying the entity's name and extension |
| `UserMapper.CreateRoundTrip` | src/main/java/com/voip/voip_user_mgmt_api/dto/UserMapper.java:60-66 | entity to create request and back keeps every field except the id |
| `UserMapper.CreateRequestRoundTrip` | src/main/java/com/voip/voip_user_mgmt_api/dto/UserMapper.java:13-24 | create request to entity and back is the identity |
| `UserMapper.UpdateRoundTrip` | src/main/java/com/voip/voip_user_mgmt_api/dto/UserMapper.java:71-77 | entity to update request and back keeps name and extension |
| `UserMapper.UpdateEntityWithOwnRequest` | src/main/java/com/voip/voip_user_mgmt_api/dto/UserMapper.java:43-55 | applying an entity's own update request to it changes nothing |
| `UserMapper.ServiceErasesWhatMapperKeeps` | src/main/java/com/voip/voip_user_mgmt_api/services/UserService.java:34-35 | for a body without a name, the mapper's update keeps the stored name but `updateUser` erases it |
| `UserDetails.NewDetails` | src/main/java/com/voip/voip_user_mgmt_api/security/UserDetailsImpl.java:68-79 | the constructor copies its five arguments and grants exactly `ROLE_USER` |
| `UserDetails.Build` | src/main/java/com/voip/voip_user_mgmt_api/security/UserDetailsImpl.java:89-97 | copies id, username, password hash, name and extension from the row unchanged, and grants exactly `ROLE_USER` |
| `UserDetails.BuiltDetailsAreUsable` | src/main/java/com/voip/voip_user_mgmt_api/security/UserDetailsImpl.java:153-171 | every built principal is non-expired, non-locked, has non-expired credentials, is enabled and carries only `ROLE_USER` |
| `UserDetails.EqualsIsEquivalence` | src/main/java/com/voip/voip_user_mgmt_api/security/UserDetailsImpl.java:177-183 | `equals` is reflexive, symmetric and transitive, and false for null |
| `UserDetails.EqualsIgnoresProfile` | src/main/java/com/voip/voip_user_mgmt_api/security/UserDetailsImpl.java:177-183 | principals with the same id are equal even when their other fields differ |
| `UserDetails.WrapInt` | src/main/java/com/voip/voip_user_mgmt_api/security/UserDetailsImpl.java:186-188 | `int` narrowing: the identity in range, otherwise congruent modulo 2^32 |
| `UserDetails.LongHashOfSmall` | src/main/java/com/voip/voip_user_mgmt_api/security/UserDetailsImpl.java:186-188 | an id in 0..2^31-1 hashes to itself as a `Long` |
| `UserDetails.LongHashOfMinusOne` | src/main/java/com/voip/voip_user_mgmt_api/security/UserDetailsImpl.java:186-188 | the `Long` hash of -1 is 0 |
| `UserDetails.HashCode` | src/main/java/com/voip/voip_user_mgmt_api/security/UserDetailsImpl.java:186-188 | a null id hashes to 31; otherwise the hash is 31 plus the id's `Long` hash in `int` arithmetic |
| `UserDetails.HashCodeRespectsEquals` | src/main/java/com/voip/voip_user_mgmt_api/security/UserDetailsImpl.java:177-188 | equal principals have equal hash codes |
| `UserDetails.HashCodeCollision` | src/main/java/com/voip/voip_user_mgmt_api/security/UserDetailsImpl.java:186-188 | ids 0 and -1 hash alike but are not equal |
| `UserDetails.JsonView` | src/main/java/com/voip/voip_user_mgmt_api/security/UserDetailsImpl.java:49-50 | the serialised principal has no password property; its username, name and extension are the principal's |
| `UserDetailsService.LoadUserByUsername` | src/main/java/com/voip/voip_user_mgmt_api/security/UserDetailsServiceImpl.java:66-86 | succeeds iff exactly one row has the username, and then returns that row's built principal. With no such row it fails with "User not found with username: " and the username. With several rows the query's failure propagates |
| `UserDetailsService.LoadFindsTheStoredRow` | src/main/java/com/voip/voip_user_mgmt_api/security/UserDetailsServiceImpl.java:72-82 | with unique usernames, the lookup of a stored username returns that row's principal, password hash included |
| `UserDetailsService.UnknownUsernameIsReported` | src/main/java/com/voip/voip_user_mgmt_api/security/UserDetailsServiceImpl.java:72-76 | a username no row carries gives the not-found exception with that username |
| `JavaText.Utf8Length` | src/main/java/com/voip/voip_user_mgmt_api/security/JwtUtils.java:72 | `getBytes()` yields one to four bytes per character, exactly one for ASCII |
| `Jwt.SigningKey` | src/main/java/com/voip/voip_user_mgmt_api/security/JwtUtils.java:71-73 | a key exists iff the secret has at least 32 UTF-8 bytes (256 bits); otherwise the library's weak-key exception |
| `Jwt.CreateToken` | src/main/java/com/voip/voip_user_mgmt_api/security/JwtUtils.java:183-191 | signing succeeds iff the secret makes a key, and otherwise fails with the weak-key exception. The token is signed with the configured key and carries the given claims and subject. It is issued now and always has an expiration, which is one lifetime later whenever that sum fits in a `long` |
| `Jwt.GenerateToken` | src/main/java/com/voip/voip_user_mgmt_api/security/JwtUtils.java:167-170 | fails exactly when the key is too short. Otherwise the token verifies under the configured key, its subject is the principal's username and it has no custom claims |
| `Jwt.DefaultLifetimeIsOneDay` | src/main/java/com/voip/voip_user_mgmt_api/security/JwtUtils.java:60-61 | with the default lifetime and a usable secret, expiration is issue time plus 24 hours in milliseconds |
| `Jwt.DefaultSecretIsRefused` | src/main/java/com/voip/voip_user_mgmt_api/security/JwtUtils.java:52-53 | the default secret is 16 bytes, so under the default configuration every token issue and every parse fails with the weak-key exception |
| `Jwt.ExtractAllClaims` | src/main/java/com/voip/voip_user_mgmt_api/security/JwtUtils.java:126-138 | succeeds iff the secret makes a key and the token is well formed and signed with that key, and then yields its claims. Otherwise it fails with the library's exception. A short secret gives the weak-key exception whatever the token. Otherwise a malformed token gives the malformed exception and a foreign signature gives the signature exception |
| `Jwt.ExtractUsername` | src/main/java/com/voip/voip_user_mgmt_api/security/JwtUtils.java:84-86 | the subject claim, possibly absent, or the parser's exception |
| `Jwt.ExtractExpiration` | src/main/java/com/voip/voip_user_mgmt_api/security/JwtUtils.java:96-98 | the expiration claim, possibly absent, or the parser's exception |
| `Jwt.IsTokenExpired` | src/main/java/com/voip/voip_user_mgmt_api/security/JwtUtils.java:149-151 | expired iff the expiration is strictly before now; a missing expiration fails on the null date |
| `Jwt.ValidateToken` | src/main/java/com/voip/voip_user_mgmt_api/security/JwtUtils.java:205-208 | true iff the secret makes a key, the token parses under it, its subject equals the principal's username, and the token has not expired. A subject mismatch is false without the expiry being read, and a missing subject fails |
| `Jwt.UsernameRoundTrip` | src/main/java/com/voip/voip_user_mgmt_api/security/JwtUtils.java:84-86 | with a usable secret, the username extracted from a generated token is the principal's |
| `Jwt.OtherKeyRejects` | src/main/java/com/voip/voip_user_mgmt_api/security/JwtUtils.java:126-138 | a token issued under one usable secret fails to parse, and so to validate, under another, with the signature exception |
| `Jwt.ExpiryIsStrict` | src/main/java/com/voip/voip_user_mgmt_api/security/JwtUtils.java:149-151 | with a usable secret, a token is unexpired, and validates, at the instant of its expiration, and is expired one millisecond later |
| `Jwt.IssuedTokenValidity` | src/main/java/com/voip/voip_user_mgmt_api/security/JwtUtils.java:183-208 | with a usable secret, an issued token validates for its own principal exactly until issue time plus lifetime |
| `Jwt.OverflowingLifetimeExpiresAtOnce` | src/main/java/com/voip/voip_user_mgmt_api/security/JwtUtils.java:188 | with a usable secret, a lifetime of `Long.MAX_VALUE` added to a positive clock overflows `long` and gives a token already expired at issue |
| `JwtFilter.BearerHeaderHasText` | src/main/java/com/voip/voip_user_mgmt_api/security/JwtAuthenticationFilter.java:158 | a header starting with "Bearer " always has text, so the `hasText` test adds nothing |
| `JwtFilter.ParseJwt` | src/main/java/com/voip/voip_user_mgmt_api/security/JwtAuthenticationFilter.java:154-164 | a token iff the header starts with "Bearer " (case-sensitive), and then the header is "Bearer " followed by the token |
| `JwtFilter.ParseJwtEdgeCases` | src/main/java/com/voip/voip_user_mgmt_api/security/JwtAuthenticationFilter.java:158-160 | "Bearer " alone yields the empty token; a lower-case prefix, a missing header and "Bearer" without the space yield none |
| `JwtFilter.Authenticated` | src/main/java/com/voip/voip_user_mgmt_api/security/JwtAuthenticationFilter.java:107-108 | the authentication holds the principal and its authorities, with null credentials |
| `JwtFilter.Attempt` | src/main/java/com/voip/voip_user_mgmt_api/security/JwtAuthenticationFilter.java:94-125 | yields an authentication iff the token is accepted for some stored row k, and then the one built from row k. Acceptance means a secret long enough to make a key, a token signed with that key, a subject equal to the username of row k and of no other row, and not expired |
| `JwtFilter.DoFilter` | src/main/java/com/voip/voip_user_mgmt_api/security/JwtAuthenticationFilter.java:83-143 | without a bearer token, or with an authentication already present, the context is unchanged. The context changes only from empty to set. An empty context is set iff the token is accepted for a stored row, and then to that row's principal with null credentials |
| `JwtFilter.FilterGrantsRoleUser` | src/main/java/com/voip/voip_user_mgmt_api/security/JwtAuthenticationFilter.java:107-116 | an authentication the filter sets carries only `ROLE_USER`, no credentials, and the principal of a stored row |
| `JwtFilter.FailuresLeaveContextEmpty` | src/main/java/com/voip/voip_user_mgmt_api/security/JwtAuthenticationFilter.java:132-137 | a too-short secret, a malformed token, a foreign signature, or a subject matching no row or several rows is swallowed and leaves the context empty |
| `Security.SkipFirstRule` | src/main/java/com/voip/voip_user_mgmt_api/config/SecurityConfig.java:135-146 | dropping a first rule that does not match shifts the first matching rule by one |
| `Security.FirstMatch` | src/main/java/com/voip/voip_user_mgmt_api/config/SecurityConfig.java:135-146 | the access of the first rule that matches the path, and none iff no rule matches |
| `Security.Required` | src/main/java/com/voip/voip_user_mgmt_api/config/SecurityConfig.java:138-145 | a path is public iff it is /api/auth or below it, or exactly /ping; every other path needs authentication |
| `Security.UserPathsNeedAuthentication` | src/main/java/com/voip/voip_user_mgmt_api/config/SecurityConfig.java:142 | every path under /api/users needs authentication |
| `Security.TableExamples` | src/main/java/com/voip/voip_user_mgmt_api/config/SecurityConfig.java:138-145 | /api/auth/login and /ping are public; /ping/x, /api/user/save and / are not |
| `Security.Authorize` | src/main/java/com/voip/voip_user_mgmt_api/config/SecurityConfig.java:30-34 | proceeds iff the path is public or the context holds an authentication; otherwise 401 |
| `Security.Serve` | src/main/java/com/voip/voip_user_mgmt_api/config/SecurityConfig.java:155 | the filter runs before the decision, starting from an empty context. A request proceeds iff its path is public or its bearer token is accepted for a stored row, and otherwise gets 401 |
| `Security.PublicPathsIgnoreTokens` | src/main/java/com/voip/voip_user_mgmt_api/config/SecurityConfig.java:138-139 | a public path proceeds whatever the header |
| `Security.MissingTokenIsUnauthorized` | src/main/java/com/voip/voip_user_mgmt_api/config/SecurityConfig.java:142-145 | a protected path without an Authorization header gets 401 |
| `AuthController.Login` | src/main/java/com/voip/voip_user_mgmt_api/controller/AuthController.java:71-118 | an invalid body is refused with its violations. The authenticator receives exactly the request's username and password. A failed authentication returns 400 with the text "Invalid username or password" and leaves the context as it was. A successful one puts the authentication in the context before the token is made. Then, if the secret makes a key, the reply is 200 with the principal's token, username and name; if not, it is the same 400 text and the context stays set |
| `AuthController.DefaultSecretRefusesCorrectLogin` | src/main/java/com/voip/voip_user_mgmt_api/controller/AuthController.java:96-116 | with the default secret, correct credentials still get the 400 "Invalid username or password", while the context keeps the authentication |
| `AuthController.FailuresAreIndistinguishable` | src/main/java/com/voip/voip_user_mgmt_api/controller/AuthController.java:112-117 | two different failing authenticators give the identical 400 reply "Invalid username or password" and an unchanged context |
| `AuthController.StoreAuthenticator` | src/main/java/com/voip/voip_user_mgmt_api/config/SecurityConfig.java:77-83 | succeeds iff exactly one row has the username and a password was presented. The row must also have a hash that the encoder matches, and the result is that row's principal without credentials. An unknown username is bad credentials |
| `AuthController.UnknownUserLooksLikeWrongPassword` | src/main/java/com/voip/voip_user_mgmt_api/config/SecurityConfig.java:77-83 | the provider answers an unknown username and a wrong password for a known one with the same bad-credentials exception, which the login then turns into the same reply |
| `AuthController.BearerRoundTrip` | src/main/java/com/voip/voip_user_mgmt_api/security/JwtAuthenticationFilter.java:158-160 | "Bearer " followed by a token text parses back to that text |
| `AuthController.LoginTokenAuthenticatesLaterRequests` | src/main/java/com/voip/voip_user_mgmt_api/controller/AuthController.java:100-110 | the token a successful login returns, sent as a bearer header before it expires, authenticates the request as the login's principal, and any path proceeds |
| `Validation.ValidateExtensionFormat` | src/main/java/com/voip/voip_user_mgmt_api/services/UserValidationService.java:112-139 | passes iff the extension is all digits, 4..6 long and not "0000" or "9999". Otherwise the first failing test decides the message, in order: null or blank, non-digits, length, reserved |
| `Validation.ShortZerosGetLengthMessage` | src/main/java/com/voip/voip_user_mgmt_api/services/UserValidationService.java:125-136 | "00" gets the length message, not the reserved one |
| `Validation.ExtensionCheckRefinesAnnotations` | src/main/java/com/voip/voip_user_mgmt_api/services/UserValidationService.java:112-139 | the service accepts exactly what the extension annotations accept, minus the reserved values |
| `Validation.ValidateName` | src/main/java/com/voip/voip_user_mgmt_api/services/UserValidationService.java:146-172 | passes iff the name is non-blank, its trimmed length is 2..100, and the untrimmed name fully matches the name pattern. The messages follow that order |
| `Validation.NameCheckMatchesAnnotations` | src/main/java/com/voip/voip_user_mgmt_api/services/UserValidationService.java:146-172 | for a name without blanks at its ends, the service and the name annotations agree |
| `Validation.TrailingBlankSeparatesTheChecks` | src/main/java/com/voip/voip_user_mgmt_api/services/UserValidationService.java:154-158 | "a " passes the annotations but gets the service's "at least 2 characters" message |
| `Validation.ValidateBusinessRules` | src/main/java/com/voip/voip_user_mgmt_api/services/UserValidationService.java:95-105 | a null or unchanged extension passes unchecked. A changed one passes iff the extension format check passes. There is no uniqueness check. A null user fails on the log line's dereference |
| `Validation.UnchangedReservedExtensionPasses` | src/main/java/com/voip/voip_user_mgmt_api/services/UserValidationService.java:99-102 | a reserved extension passes when it equals the stored one and is refused when it is new |
| `Validation.DescribeAll` | src/main/java/com/voip/voip_user_mgmt_api/services/UserValidationService.java:78-79 | one "path: message" entry per violation, in order |
| `Validation.ValidateUser` | src/main/java/com/voip/voip_user_mgmt_api/services/UserValidationService.java:68-87 | a null user is refused. Otherwise it passes iff there are no violations. If there are, the message is the base text, ": ", then the entries joined by "; " |
| `Validation.ValidateUserReportsEveryViolation` | src/main/java/com/voip/voip_user_mgmt_api/services/UserValidationService.java:77-84 | every violation's entry appears verbatim in the message |
| `Validation.ValidateForCreateAsWritten` | src/main/java/com/voip/voip_user_mgmt_api/services/UserValidationService.java:33-37 | a null user fails with a null dereference; any other user goes to `validateUser` with the creation message |
| `Validation.ValidateForUpdateAsWritten` | src/main/java/com/voip/voip_user_mgmt_api/services/UserValidationService.java:44-48 | the same for update |
| `Validation.ValidateForPartialUpdateAsWritten` | src/main/java/com/voip/voip_user_mgmt_api/services/UserValidationService.java:55-59 | the same for partial update |
| `Validation.NullUserNeverReachesValidateUser` | src/main/java/com/voip/voip_user_mgmt_api/services/UserValidationService.java:33-72 | all three entry points fail on a null user with a null dereference, while `validateUser` would have raised "User object cannot be null" |
| `Validation.ValidateFor` | src/main/java/com/voip/voip_user_mgmt_api/services/UserValidationService.java:68-72 | corrected entry point: a null user is the validation error "User object cannot be null". Otherwise the violations decide |
| `Validation.CorrectedEntryPointsAgreeOnUsers` | src/main/java/com/voip/voip_user_mgmt_api/services/UserValidationService.java:33-59 | the corrected entry point fails only with validation errors and agrees with the code as written on every non-null user |

## Left out

- **Cryptography.**
  - HMAC-SHA256 signing and BCrypt hashing are not modelled. A token parses iff it was signed with the verifying key, and the password encoder is a parameter.
  - The compact token text is not modelled either. The filter decodes it with a parameter function.
  - `Jwt.SigningKey`: the secret's bytes are taken in UTF-8, the default charset of current Java releases. Another platform charset would count bytes differently.
- **Parser-side expiry.** The JWT parser's own rejection of expired tokens is not modelled. Neither is the loss of milliseconds when the expiration is stored in seconds.
- **Clock readings.** `createToken` reads the clock twice, once for the issue time and once for the expiration. The model uses one reading, `now`.
- `Security.Authorize`: the status for a refused request is taken as 401, as the configuration's class comment states. No authentication entry point is configured, and the framework chooses the status.
- **URI matching.** Request paths are given as segment lists. URI decoding, trailing slashes and the framework's path-matcher internals are not modelled.
- **Other framework wiring.** These are not modelled:
  - the authentication manager and `ProviderManager` credential erasure (the provider returns the principal without credentials directly);
  - CSRF and session settings;
  - the request details attached to an authentication;
  - logging, transactions and concurrency.
- **Bean Validation engine.** The annotations are predicates. The order in which the engine returns violations is unspecified: the request checks return sets, and `validateUser` takes the violations as a list in whatever order the engine yields.
- **Ids and JPA semantics.** The database sequence behind generated ids is not modelled. A new id is the least positive unused key, which is enough for freshness. `save` of an entity with an id that is not stored is an insert under that id. JPA's merge semantics for detached entities are not modelled.
- **Login response.** The `JwtResponse` class is not part of this model. The success body is the triple of token, username and name.
- **Controllers and application class.** `UserController` and `PingController` are thin HTTP routing, and the application class is bootstrap only. None of them is modelled.
- `UserService.DeleteUserById` and `UserService.UpdateUser` take the id as a `long`, not a nullable `Long`. The `IllegalArgumentException` that the repository throws for a null id is not modelled, because the id always comes from a path variable.
- **Locale.** `%d` is rendered with ASCII digits. Locale-specific digits are not modelled.

## Findings

| source | as written | input that shows it | evidently intended | confidence | as-written member | corrected member |
|---|---|---|---|---|---|---|
| src/main/java/com/voip/voip_user_mgmt_api/services/UserValidationService.java:33-35 | `validateForCreate`, `validateForUpdate` and `validateForPartialUpdate` read `user.getName()` for a log line before calling `validateUser`, whose first act is a null test | a null user: it fails with a null dereference, which the exception handler turns into 500 "An unexpected error occurred" | a null user is refused with the 400 validation error "User object cannot be null" that `validateUser` raises for it | medium, not executed | `Validation.ValidateForCreateAsWritten` | `Validation.ValidateFor` |
