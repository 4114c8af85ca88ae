/**
 * The request-body validators. Each runs its field rules, collects one error per failed
 * rule, and either rejects the request with 400 "Validation failed" or hands the handler the
 * sanitised values (`trim()` rewrites the field it runs on). An absent field reads as the
 * empty string; an `optional()` field is skipped when absent.
 */
module Validation {
  import opened Wrappers
  import opened Models
  import Text

  datatype FieldError = FieldError(field: string, message: string)

  /** The validator library's message when a rule has none of its own. */
  const InvalidValue: string := "Invalid value"

  /** The outcome of a validator chain: the sanitised input, or the list of failed rules. */
  datatype Checked<T> = Valid(value: T) | Invalid(errors: seq<FieldError>)

  /** What `handleValidationErrors` does: go on, or answer 400 with the errors. */
  datatype Gate = Proceed | Reject(code: nat, message: string, errors: seq<FieldError>)

  function HandleValidationErrors(errors: seq<FieldError>): (g: Gate)
    ensures g.Proceed? <==> errors == []
    ensures g.Reject? ==> g.code == 400 && g.message == "Validation failed" && g.errors == errors
  {
    if errors == [] then Proceed else Reject(400, "Validation failed", errors)
  }

  /** The string a validator sees for a body field. */
  function Value(field: Option<string>): string {
    field.GetOr("")
  }

  /** One error when `ok` fails. */
  function Rule(ok: bool, field: string, message: string): (e: seq<FieldError>)
    ensures e == [] <==> ok
    ensures forall x :: x in e <==> !ok && x == FieldError(field, message)
  {
    if ok then [] else [FieldError(field, message)]
  }

  // ---------------------------------------------------------------- character classes

  predicate IsHexDigit(c: char) {
    ('0' <= c <= '9') || ('a' <= c <= 'f') || ('A' <= c <= 'F')
  }

  /** `isUUID()`: 8-4-4-4-12 hexadecimal digits separated by hyphens, any case. */
  predicate IsUuid(s: string) {
    |s| == 36
    && (forall i :: 0 <= i < 36 && i in {8, 13, 18, 23} ==> s[i] == '-')
    && (forall i :: 0 <= i < 36 && i !in {8, 13, 18, 23} ==> IsHexDigit(s[i]))
  }

  // ---------------------------------------------------------------- posts

  const ContentMessage: string := "Content must be between 1 and 2000 characters"

  /** `validatePost`: the trimmed content holds 1 to 2000 characters; the handler gets it trimmed. */
  function ValidatePost(content: Option<string>): (r: Checked<string>)
    ensures r.Valid? <==> 1 <= |Text.Trim(Value(content))| <= 2000
    ensures r.Valid? ==> r.value == Text.Trim(Value(content))
    ensures r.Invalid? ==> r.errors == [FieldError("content", ContentMessage)]
  {
    var c := Text.Trim(Value(content));
    if 1 <= |c| <= 2000 then Valid(c) else Invalid([FieldError("content", ContentMessage)])
  }

  /** Content that passes `validatePost` is content the Post schema accepts. */
  lemma ValidatedContentFitsSchema(content: Option<string>, id: Id, author: Id, media: Option<string>)
    requires ValidatePost(content).Valid?
    ensures ValidPost(NewPost(id, author, ValidatePost(content).value, media))
  {
  }

  // ---------------------------------------------------------------- flags

  /** A validated flag request. */
  datatype FlagInput = FlagInput(postId: Id, category: Category, reasonText: Option<string>)

  const PostIdMessage: string := "Valid post ID is required"
  const ReasonTextMessage: string := "Reason text must be less than 500 characters"

  /** Trims an optional field; absent stays absent. */
  function TrimOptional(field: Option<string>): (r: Option<string>)
    ensures r.None? <==> field.None?
    ensures r.Some? ==> r.value == Text.Trim(field.value)
  {
    match field
    case None => None
    case Some(s) => Some(Text.Trim(s))
  }

  /** An optional field whose trimmed value holds at most `max` characters. */
  predicate OptionalWithin(field: Option<string>, max: nat) {
    field.None? || |Text.Trim(field.value)| <= max
  }

  /** The failed rules of `validateFlag`, in field order. */
  function FlagErrors(postId: Option<string>, category: Option<string>, reasonText: Option<string>): (e: seq<FieldError>)
    ensures e == [] <==> IsUuid(Value(postId)) && Value(category) in CategoryNames && OptionalWithin(reasonText, 500)
    ensures FieldError("post_id", PostIdMessage) in e <==> !IsUuid(Value(postId))
    ensures FieldError("reason_category", InvalidValue) in e <==> Value(category) !in CategoryNames
    ensures FieldError("reason_text", ReasonTextMessage) in e <==> !OptionalWithin(reasonText, 500)
  {
    var idError := Rule(IsUuid(Value(postId)), "post_id", PostIdMessage);
    var categoryError := Rule(Value(category) in CategoryNames, "reason_category", InvalidValue);
    var reasonError := Rule(OptionalWithin(reasonText, 500), "reason_text", ReasonTextMessage);
    idError + categoryError + reasonError
  }

  /**
   * `validateFlag`: a UUID post id, one of the eight categories, and an optional reason of
   * at most 500 characters after trimming; every failed rule is reported, in field order.
   */
  function ValidateFlag(postId: Option<string>, category: Option<string>, reasonText: Option<string>): (r: Checked<FlagInput>)
    ensures r.Valid? <==> IsUuid(Value(postId)) && Value(category) in CategoryNames && OptionalWithin(reasonText, 500)
    ensures r.Valid? ==> r.value.postId == postId.value && CategoryName(r.value.category) == category.value
                         && r.value.reasonText == TrimOptional(reasonText)
    ensures r.Invalid? ==> |r.errors| >= 1
    ensures r.Invalid? ==> (FieldError("post_id", PostIdMessage) in r.errors <==> !IsUuid(Value(postId)))
    ensures r.Invalid? ==> (FieldError("reason_category", InvalidValue) in r.errors <==> Value(category) !in CategoryNames)
    ensures r.Invalid? ==> (FieldError("reason_text", ReasonTextMessage) in r.errors <==> !OptionalWithin(reasonText, 500))
  {
    var errors := FlagErrors(postId, category, reasonText);
    if errors == [] then
      Valid(FlagInput(Value(postId), ParseCategory(Value(category)).value, TrimOptional(reasonText)))
    else Invalid(errors)
  }

  // ---------------------------------------------------------------- moderation actions

  const ActionMessage: string := "Invalid action"
  const ReasonMessage: string := "Reason must be less than 500 characters"

  /** `validateModerationAction`: the action is approve, remove or escalate; the optional reason holds at most 500 characters. */
  function ValidateModerationAction(action: Option<string>, reason: Option<string>): (r: Checked<(ModAction, Option<string>)>)
    ensures r.Valid? <==> Value(action) in {"approve", "remove", "escalate"} && OptionalWithin(reason, 500)
    ensures r.Valid? ==> ActionName(r.value.0) == action.value && r.value.1 == TrimOptional(reason)
    ensures r.Invalid? ==> (FieldError("action", ActionMessage) in r.errors <==> Value(action) !in {"approve", "remove", "escalate"})
    ensures r.Invalid? ==> (FieldError("reason", ReasonMessage) in r.errors <==> !OptionalWithin(reason, 500))
  {
    var errors := Rule(ParseAction(Value(action)).Some?, "action", ActionMessage)
                  + Rule(OptionalWithin(reason, 500), "reason", ReasonMessage);
    if errors == [] then Valid((ParseAction(Value(action)).value, TrimOptional(reason))) else Invalid(errors)
  }

  // ---------------------------------------------------------------- accounts

  /** A validated registration: email as given (normalisation is not modelled), password, trimmed name. */
  datatype Registration = Registration(email: string, password: string, name: string)

  const PasswordMessage: string := "Password must be at least 6 characters"
  const NameMessage: string := "Name must be between 2 and 100 characters"

  /** `validateRegistration`: a valid email, a password of 6 or more characters, a trimmed name of 2 to 100. */
  function ValidateRegistration(email: Option<string>, password: Option<string>, name: Option<string>,
                                isEmail: string -> bool): (r: Checked<Registration>)
    ensures r.Valid? <==> isEmail(Value(email)) && |Value(password)| >= 6 && 2 <= |Text.Trim(Value(name))| <= 100
    ensures r.Valid? ==> r.value.name == Text.Trim(Value(name)) && r.value.password == Value(password)
    ensures r.Invalid? ==> (FieldError("password", PasswordMessage) in r.errors <==> |Value(password)| < 6)
    ensures r.Invalid? ==> (FieldError("name", NameMessage) in r.errors <==> !(2 <= |Text.Trim(Value(name))| <= 100))
  {
    var n := Text.Trim(Value(name));
    var e1 := Rule(isEmail(Value(email)), "email", InvalidValue);
    var e2 := Rule(|Value(password)| >= 6, "password", PasswordMessage);
    var e3 := Rule(2 <= |n| <= 100, "name", NameMessage);
    var errors := e1 + e2 + e3;
    assert FieldError("password", PasswordMessage) in errors <==> |Value(password)| < 6;
    assert FieldError("name", NameMessage) in errors <==> !(2 <= |n| <= 100);
    if errors == [] then Valid(Registration(Value(email), Value(password), n)) else Invalid(errors)
  }

  /** A registration that passes validation yields a user the schema accepts. */
  lemma RegistrationFitsSchema(email: Option<string>, password: Option<string>, name: Option<string>,
                               isEmail: string -> bool, id: Id, hash: Option<string>)
    requires ValidateRegistration(email, password, name, isEmail).Valid?
    ensures var reg := ValidateRegistration(email, password, name, isEmail).value;
            ValidUser(NewUser(id, reg.email, reg.name, hash), isEmail)
  {
  }

  const PasswordRequiredMessage: string := "Password is required"

  /** `validateLogin`: a valid email and a non-empty password. */
  function ValidateLogin(email: Option<string>, password: Option<string>, isEmail: string -> bool): (r: Checked<(string, string)>)
    ensures r.Valid? <==> isEmail(Value(email)) && Value(password) != ""
    ensures r.Invalid? ==> (FieldError("password", PasswordRequiredMessage) in r.errors <==> Value(password) == "")
  {
    var errors := Rule(isEmail(Value(email)), "email", InvalidValue)
                  + Rule(Value(password) != "", "password", PasswordRequiredMessage);
    if errors == [] then Valid((Value(email), Value(password))) else Invalid(errors)
  }

  // ---------------------------------------------------------------- profile edits

  /** The validators on `PATCH /users/:id`: an optional trimmed name of 2 to 100 characters and an optional valid email. */
  function ValidateProfileUpdate(name: Option<string>, email: Option<string>, isEmail: string -> bool): (r: Checked<(Option<string>, Option<string>)>)
    ensures r.Valid? <==> (name.None? || 2 <= |Text.Trim(name.value)| <= 100) && (email.None? || isEmail(email.value))
    ensures r.Valid? ==> r.value.0 == TrimOptional(name) && r.value.1 == email
  {
    var errors := Rule(name.None? || 2 <= |Text.Trim(name.value)| <= 100, "name", InvalidValue)
                  + Rule(email.None? || isEmail(email.value), "email", InvalidValue);
    if errors == [] then Valid((TrimOptional(name), email)) else Invalid(errors)
  }

  const RoleMessage: string := "Invalid role"

  /** The validator on `PATCH /users/:id/role`: one of user, moderator, admin. */
  function ValidateRole(role: Option<string>): (r: Checked<Role>)
    ensures r.Valid? <==> Value(role) in {"user", "moderator", "admin"}
    ensures r.Valid? ==> RoleName(r.value) == role.value
    ensures r.Invalid? ==> r.errors == [FieldError("role", RoleMessage)]
  {
    match ParseRole(Value(role))
    case Some(x) => Valid(x)
    case None => Invalid([FieldError("role", RoleMessage)])
  }
}
