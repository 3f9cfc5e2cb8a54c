/** `UserValidationService`: the hand-written extension and name checks, the
    "only a changed extension is checked" business rule, and the assembly of
    a `ValidationException` message from the bean validator's violations.

    Each check runs its tests in a fixed order and the first failing test
    decides the message; a check returns `Pass` or the exception it throws. */
module Validation {

  import opened Wrappers
  import opened JavaText
  import opened UserEntity
  import opened Exceptions
  import opened Requests

  // ---------------------------------------------------------------------------
  // validateExtensionFormat
  // ---------------------------------------------------------------------------

  const ExtensionMissing := "Extension cannot be null or empty"
  const ExtensionNotNumeric := "Extension can only contain numbers"
  const ExtensionBadLength := "Extension must be between 4 and 6 characters"

  function ReservedMessage(extension: string): string
  {
    "Extension " + extension + " is reserved and cannot be used"
  }

  predicate IsReserved(extension: string)
  {
    extension == "0000" || extension == "9999"
  }

  function Reject(message: string): Outcome<Exception>
  {
    Fail(ValidationException(message))
  }

  /** `validateExtensionFormat(extension)`: null or blank, then non-digits,
      then length outside 4..6, then a reserved value. */
  function ValidateExtensionFormat(extension: Option<string>): (r: Outcome<Exception>)
    ensures r.Pass? <==>
      extension.Some? && MatchesDigits(extension.value) && 4 <= |extension.value| <= 6
      && !IsReserved(extension.value)
    ensures r == Reject(ExtensionMissing) <==> extension.None? || IsBlank(extension.value)
    ensures r == Reject(ExtensionNotNumeric) <==>
      extension.Some? && !IsBlank(extension.value) && !MatchesDigits(extension.value)
    ensures r == Reject(ExtensionBadLength) <==>
      extension.Some? && MatchesDigits(extension.value) && !(4 <= |extension.value| <= 6)
    ensures extension.Some? && r == Reject(ReservedMessage(extension.value)) <==>
      extension.Some? && IsReserved(extension.value)
  {
    if extension.None? || IsBlank(extension.value) then Reject(ExtensionMissing)
    else
      var e := extension.value;
      if !MatchesDigits(e) then Reject(ExtensionNotNumeric)
      else
        NameCharsAreBmp(e);
        assert ReservedMessage(e)[10] == e[0] && ExtensionBadLength[10] == 'm';
        if Utf16Length(e) < 4 || Utf16Length(e) > 6 then Reject(ExtensionBadLength)
        else if IsReserved(e) then Reject(ReservedMessage(e))
        else Pass
  }

  /** Checks are ordered: "00" is both short and all zeros, and gets the length
      message. */
  lemma ShortZerosGetLengthMessage()
    ensures ValidateExtensionFormat(Some("00")) == Reject(ExtensionBadLength)
  {
  }

  /** The service accepts exactly the extensions the request annotations
      accept, minus the two reserved values. */
  lemma ExtensionCheckRefinesAnnotations(extension: Option<string>)
    ensures ValidateExtensionFormat(extension).Pass? <==>
      ExtensionViolations(extension) == {} && !IsReserved(extension.value)
  {
  }

  // ---------------------------------------------------------------------------
  // validateName
  // ---------------------------------------------------------------------------

  const NameMissing := "Name cannot be null or empty"
  const NameTooShort := "Name must be at least 2 characters long"
  const NameTooLong := "Name cannot exceed 100 characters"
  const NameBadChars := "Name can only contain letters, spaces, hyphens, and apostrophes"

  /** `validateName(name)`: the length bounds apply to the trimmed name, the
      pattern to the name as given. */
  function ValidateName(name: Option<string>): (r: Outcome<Exception>)
    ensures r.Pass? <==>
      name.Some? && !IsBlank(name.value) && 2 <= Utf16Length(Trim(name.value)) <= 100
      && MatchesName(name.value)
    ensures r == Reject(NameMissing) <==> name.None? || IsBlank(name.value)
    ensures r == Reject(NameTooShort) <==>
      name.Some? && !IsBlank(name.value) && Utf16Length(Trim(name.value)) < 2
    ensures r == Reject(NameTooLong) <==>
      name.Some? && Utf16Length(Trim(name.value)) > 100
    ensures r == Reject(NameBadChars) <==>
      name.Some? && 2 <= Utf16Length(Trim(name.value)) <= 100 && !MatchesName(name.value)
  {
    if name.None? || IsBlank(name.value) then Reject(NameMissing)
    else
      var n := Trim(name.value);
      if Utf16Length(n) < 2 then Reject(NameTooShort)
      else if Utf16Length(n) > 100 then Reject(NameTooLong)
      else if !MatchesName(name.value) then Reject(NameBadChars)
      else Pass
  }

  /** For a name with no blank at either end the service and the annotations
      agree. */
  lemma NameCheckMatchesAnnotations(name: string)
    requires |name| > 0 ==> !IsTrimmable(name[0]) && !IsTrimmable(name[|name| - 1])
    ensures ValidateName(Some(name)).Pass? <==> NameViolations(Some(name)) == {}
  {
    TrimOfUntrimmedEnds(name);
  }

  /** They differ on a trailing blank: "a " is two characters for the
      annotation but one for the service. */
  lemma TrailingBlankSeparatesTheChecks()
    ensures NameViolations(Some("a ")) == {}
    ensures ValidateName(Some("a ")) == Reject(NameTooShort)
  {
    var s := "a ";
    assert !IsTrimmable(s[0]);
    assert Trim(s) == "a" by {
      assert LeadingTrimmable(s) == 0;
      assert s[0..] == s;
      assert TrailingTrimmable(s[..1]) == 0;
      assert TrailingTrimmable(s) == 1;
    }
    assert MatchesName(s);
  }

  // ---------------------------------------------------------------------------
  // validateBusinessRules
  // ---------------------------------------------------------------------------

  /** `validateBusinessRules(user, existingExtension)`: only an extension that
      is present and differs from the stored one is checked. The user's name is
      read for the log line first, so a null user fails with a null
      dereference. */
  function ValidateBusinessRules(user: Option<User>, existing: Option<string>): (r: Outcome<Exception>)
    ensures user.None? ==> r == Fail(NullPointerException)
    ensures user.Some? && (user.value.extension.None? || user.value.extension == existing) ==> r.Pass?
    ensures user.Some? && user.value.extension.Some? && user.value.extension != existing ==>
      (r.Pass? <==> MatchesDigits(user.value.extension.value)
                    && 4 <= |user.value.extension.value| <= 6
                    && !IsReserved(user.value.extension.value))
    ensures r.Fail? && user.Some? ==> r.error.ValidationException?
  {
    if user.None? then Fail(NullPointerException)
    else if user.value.extension.Some? && user.value.extension != existing then
      ValidateExtensionFormat(user.value.extension)
    else Pass
  }

  /** An unchanged extension passes even when it is reserved; the same value
      as a change is refused. */
  lemma UnchangedReservedExtensionPasses(user: User)
    requires user.extension == Some("9999")
    ensures ValidateBusinessRules(Some(user), Some("9999")).Pass?
    ensures ValidateBusinessRules(Some(user), Some("1234")) == Reject(ReservedMessage("9999"))
    ensures ValidateBusinessRules(Some(user), None) == Reject(ReservedMessage("9999"))
  {
  }

  // ---------------------------------------------------------------------------
  // validateUser and its three entry points
  // ---------------------------------------------------------------------------

  const NullUserMessage := "User object cannot be null"
  const CreateFailed := "User creation validation failed"
  const UpdateFailed := "User update validation failed"
  const PartialUpdateFailed := "User partial update validation failed"

  /** One entry of the detailed message: the property path and the message. */
  function Describe(v: Violation): string
  {
    v.field + ": " + v.message
  }

  function DescribeAll(vs: seq<Violation>): (r: seq<string>)
    ensures |r| == |vs|
    ensures forall i :: 0 <= i < |vs| ==> r[i] == Describe(vs[i])
  {
    seq(|vs|, i requires 0 <= i < |vs| => Describe(vs[i]))
  }

  /** `validateUser(user, groups, errorMessage)`; `violations` is what the
      bean validator reported for the group, in its iteration order. */
  function ValidateUser(user: Option<User>, violations: seq<Violation>, base: string): (r: Outcome<Exception>)
    ensures user.None? ==> r == Reject(NullUserMessage)
    ensures user.Some? ==> (r.Pass? <==> |violations| == 0)
    ensures r.Fail? ==> r.error.ValidationException?
    ensures user.Some? && r.Fail? ==>
      StartsWith(r.error.message, base + ": ")
      && r.error.message[|base| + 2..] == Join(DescribeAll(violations), "; ")
  {
    if user.None? then Reject(NullUserMessage)
    else if |violations| == 0 then Pass
    else
      var m := base + ": " + Join(DescribeAll(violations), "; ");
      assert m[..|base| + 2] == base + ": ";
      Reject(m)
  }

  /** Every violation's "path: message" appears verbatim in the exception's
      message, after the base text, at its position in the join. */
  lemma {:induction false} ValidateUserReportsEveryViolation(user: User, violations: seq<Violation>,
                                                            base: string, i: nat)
    requires i < |violations|
    ensures ValidateUser(Some(user), violations, base).Fail?
    ensures var m := ValidateUser(Some(user), violations, base).error.message;
      var o := |base| + 2 + JoinOffset(DescribeAll(violations), "; ", i);
      o + |Describe(violations[i])| <= |m| && m[o..o + |Describe(violations[i])|] == Describe(violations[i])
  {
    var parts := DescribeAll(violations);
    JoinKeepsParts(parts, "; ", i);
    var m := ValidateUser(Some(user), violations, base).error.message;
    var j := Join(parts, "; ");
    assert m == (base + ": ") + j;
    var o := JoinOffset(parts, "; ", i);
    assert m[|base| + 2 + o..|base| + 2 + o + |parts[i]|] == j[o..o + |parts[i]|];
  }

  /** `validateForCreate(user)` as written: the log line reads the user's name
      before `validateUser` can test for null. */
  function ValidateForCreateAsWritten(user: Option<User>, violations: seq<Violation>): (r: Outcome<Exception>)
    ensures user.None? ==> r == Fail(NullPointerException)
    ensures user.Some? ==> r == ValidateUser(user, violations, CreateFailed)
  {
    if user.None? then Fail(NullPointerException) else ValidateUser(user, violations, CreateFailed)
  }

  /** `validateForUpdate(user)` as written. */
  function ValidateForUpdateAsWritten(user: Option<User>, violations: seq<Violation>): (r: Outcome<Exception>)
    ensures user.None? ==> r == Fail(NullPointerException)
    ensures user.Some? ==> r == ValidateUser(user, violations, UpdateFailed)
  {
    if user.None? then Fail(NullPointerException) else ValidateUser(user, violations, UpdateFailed)
  }

  /** `validateForPartialUpdate(user)` as written. */
  function ValidateForPartialUpdateAsWritten(user: Option<User>, violations: seq<Violation>): (r: Outcome<Exception>)
    ensures user.None? ==> r == Fail(NullPointerException)
    ensures user.Some? ==> r == ValidateUser(user, violations, PartialUpdateFailed)
  {
    if user.None? then Fail(NullPointerException) else ValidateUser(user, violations, PartialUpdateFailed)
  }

  /** The null-user branch of `validateUser` is unreachable from the entry
      points: a null user surfaces as a null dereference, not as the
      validation error `validateUser` was written to raise. */
  lemma NullUserNeverReachesValidateUser(violations: seq<Violation>)
    ensures ValidateForCreateAsWritten(None, violations) == Fail(NullPointerException)
    ensures ValidateForUpdateAsWritten(None, violations) == Fail(NullPointerException)
    ensures ValidateForPartialUpdateAsWritten(None, violations) == Fail(NullPointerException)
    ensures ValidateUser(None, violations, CreateFailed) == Reject(NullUserMessage)
  {
  }

  /** The entry point as its null test intends: a null user is a validation
      error, and otherwise the group's violations decide. */
  function ValidateFor(user: Option<User>, violations: seq<Violation>, base: string): (r: Outcome<Exception>)
    ensures user.None? ==> r == Reject(NullUserMessage)
    ensures user.Some? ==> (r.Pass? <==> |violations| == 0)
    ensures r.Fail? ==> r.error.ValidationException?
  {
    ValidateUser(user, violations, base)
  }

  /** With the null test reached, the entry points only ever fail with a
      validation error, and they agree with the code as written whenever the
      user is not null. */
  lemma CorrectedEntryPointsAgreeOnUsers(user: Option<User>, violations: seq<Violation>)
    ensures ValidateFor(user, violations, CreateFailed).Fail? ==>
      ValidateFor(user, violations, CreateFailed).error.ValidationException?
    ensures user.Some? ==>
      && ValidateFor(user, violations, CreateFailed) == ValidateForCreateAsWritten(user, violations)
      && ValidateFor(user, violations, UpdateFailed) == ValidateForUpdateAsWritten(user, violations)
      && ValidateFor(user, violations, PartialUpdateFailed) == ValidateForPartialUpdateAsWritten(user, violations)
  {
  }
}
