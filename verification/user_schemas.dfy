/**
 * The request and response schemas of the user API: how a JSON body is
 * turned into a `UserCreate` or a `UserUpdate`, or rejected with field
 * errors, and how a stored row is copied into a `UserResponse`.
 *
 * Two pieces of the validation are foreign libraries and stay uninterpreted:
 * the markup stripper applied to names and the email-address grammar. They
 * are passed in as a `Foreign` value.
 */
module UserSchemas {
  import opened Text
  import opened UserModel

  /** The length bounds declared on the `name` field. */
  const MinNameLength := 1
  const MaxNameLength := 50

  /** The foreign collaborators: `clean` is the markup stripper called with
      no allowed tags, `isEmail` the grammar of an email-string field. */
  datatype Foreign = Foreign(clean: string -> string, isEmail: string -> bool)

  datatype Option<T> = None | Some(value: T)

  /** A field of a JSON body as it arrives: left out, `null`, or a string. */
  datatype Raw = Absent | Null | Str(text: string)

  /** A request body with its two fields. */
  datatype RawUser = RawUser(name: Raw, email: Raw)

  /** Why one field was rejected; every one of them is a 422 response. */
  datatype FieldError =
    | Missing(field: string)      // a required field was left out
    | NotAString(field: string)   // a required field was null
    | BlankName                   // "Name cannot be empty or just spaces"
    | NameLength(length: nat)     // outside the declared length bounds
    | BadEmail                    // not accepted by the email grammar

  /** The verdict on one field. */
  datatype Checked<T> = Accepted(value: T) | Rejected(error: FieldError)

  /** The verdict on a whole body: the model, or every field error. */
  datatype Validated<T> = Valid(value: T) | Invalid(errors: seq<FieldError>)

  datatype UserCreate = UserCreate(name: string, email: string)
  datatype UserUpdate = UserUpdate(name: Option<string>, email: Option<string>)

  /** The response shape; `createdAt` is the stored instant (its display
      time zone is presentation only). */
  datatype UserResponse = UserResponse(id: int, name: string, email: string, createdAt: int)

  /** Python truthiness of an optional string: present and not empty. */
  predicate Supplied(o: Option<string>) {
    o.Some? && o.value != ""
  }

  /** Which name check the schema runs: the validators as the code runs
      them, or with the emptiness check also applied to the sanitised name,
      as the emptiness validator's purpose is. */
  datatype NameRule = AsWritten | Corrected

  /** Within the length bounds declared on the `name` field. */
  predicate WithinNameBounds(name: string) {
    MinNameLength <= |name| <= MaxNameLength
  }

  /** A name that is not blank and within the bounds. */
  predicate WellFormedName(name: string) {
    !Blank(name) && WithinNameBounds(name)
  }

  /** A name as the table holds it when names are checked under `rule`:
      within the bounds, and not blank under the corrected check. */
  predicate StoredName(rule: NameRule, name: string) {
    match rule
    case AsWritten => WithinNameBounds(name)
    case Corrected => WellFormedName(name)
  }

  /** The reference condition under which a name string is accepted under
      `rule`: the raw string is not blank, and what stripping and markup
      removal leave of it is a name the table may hold. */
  predicate NameAccepted(rule: NameRule, s: string, f: Foreign) {
    !Blank(s) && StoredName(rule, f.clean(Strip(s)))
  }

  /** An email as the table holds it. */
  predicate WellFormedEmail(email: string, f: Foreign) {
    IsLowercase(email) && f.isEmail(email)
  }

  /** The `to_lowercase` validator: a falsy value passes through as it is,
      a non-empty string is lowered. */
  function ToLowercase(v: Raw): (r: Raw)
    ensures r.Str? <==> v.Str?
    ensures r.Str? ==> IsLowercase(r.text) && EqualIgnoringCase(v.text, r.text)
    ensures v == Null || v == Str("") ==> r == v
  {
    if v.Str? && v.text != "" then Str(Lower(v.text)) else v
  }

  /** The validators of `name` on a string, in the order pydantic runs them.
      Pydantic runs the "before" validators of one field last-declared
      first, so the emptiness check sees the raw string; `sanitize_name`
      then strips and sanitises it, and the length bounds apply to what
      comes out. Nothing checks the sanitised string for blankness. */
  function CheckNameAsWritten(s: string, f: Foreign): (r: Checked<string>)
    ensures Blank(s) ==> r == Rejected(BlankName)
    ensures r.Accepted? <==> !Blank(s) && WithinNameBounds(f.clean(Strip(s)))
    ensures r.Accepted? ==> r.value == f.clean(Strip(s))
  {
    if Strip(s) == [] then Rejected(BlankName)
    else
      // `sanitize_name` strips, then `sanitize_input` strips again and
      // removes all markup.
      var sanitized := f.clean(Strip(Strip(s)));
      StripIdempotent(s);
      if MinNameLength <= |sanitized| <= MaxNameLength then Accepted(sanitized)
      else Rejected(NameLength(|sanitized|))
  }

  /** A name made of markup around whitespace passes the validators as
      written and is stored blank: markup removal turns `<b> </b>` into a
      single space, which is within the length bounds. */
  lemma AsWrittenAcceptsBlankName()
    ensures var f := Foreign(v => if v == "<b> </b>" then " " else v, e => true);
      CheckNameAsWritten("<b> </b>", f) == Accepted(" ") && Blank(" ")
  {
  }

  /** The validators of `name` with the emptiness check also applied to the
      sanitised string, as the validator's purpose is: a blank raw name or a
      name that sanitises to blank is refused, and the length bounds apply
      to the sanitised string. */
  function CheckName(s: string, f: Foreign): (r: Checked<string>)
    ensures Blank(s) ==> r == Rejected(BlankName)
    ensures r.Accepted? <==> !Blank(s) && WellFormedName(f.clean(Strip(s)))
    ensures r.Accepted? ==> r.value == f.clean(Strip(s)) && WellFormedName(r.value)
  {
    if Strip(s) == [] then Rejected(BlankName)
    else
      var sanitized := f.clean(Strip(Strip(s)));
      StripIdempotent(s);
      if Strip(sanitized) == [] then Rejected(BlankName)
      else if MinNameLength <= |sanitized| <= MaxNameLength then Accepted(sanitized)
      else Rejected(NameLength(|sanitized|))
  }

  /** The corrected name check accepts what the one as written accepts,
      with the same result, except a name that sanitises to blank. */
  lemma CheckNameCorrectsOnlyBlank(s: string, f: Foreign)
    ensures CheckName(s, f).Accepted? ==> CheckNameAsWritten(s, f) == CheckName(s, f)
    ensures CheckNameAsWritten(s, f).Accepted? && !CheckName(s, f).Accepted? ==>
      Blank(CheckNameAsWritten(s, f).value)
  {
  }

  /** The validators of `name` on a string, under `rule`. */
  function NameCheck(rule: NameRule, s: string, f: Foreign): (r: Checked<string>)
    ensures Blank(s) ==> r == Rejected(BlankName)
    ensures r.Accepted? <==> NameAccepted(rule, s, f)
    ensures r.Accepted? ==> r.value == f.clean(Strip(s)) && StoredName(rule, r.value)
  {
    match rule
    case AsWritten => CheckNameAsWritten(s, f)
    case Corrected => CheckName(s, f)
  }

  /** The validators of `email` on a string: lowered first, then the
      grammar judges the lowered form. */
  function CheckEmail(s: string, f: Foreign): (r: Checked<string>)
    ensures r.Accepted? <==> f.isEmail(Lower(s))
    ensures r.Accepted? ==> r.value == Lower(s) && WellFormedEmail(r.value, f)
    ensures r.Rejected? ==> r.error == BadEmail
  {
    var lowered := ToLowercase(Str(s)).text;
    assert lowered == Lower(s);
    if f.isEmail(lowered) then Accepted(lowered) else Rejected(BadEmail)
  }

  /** `name` where a string is required. */
  function RequiredName(v: Raw, rule: NameRule, f: Foreign): (r: Checked<string>)
    ensures v == Absent ==> r == Rejected(Missing("name"))
    ensures v == Null ==> r == Rejected(NotAString("name"))
    ensures r.Accepted? <==> v.Str? && NameAccepted(rule, v.text, f)
    ensures r.Accepted? ==> r.value == f.clean(Strip(v.text))
  {
    match v
    case Absent => Rejected(Missing("name"))
    case Null => Rejected(NotAString("name"))
    case Str(s) => NameCheck(rule, s, f)
  }

  /** `email` where a string is required. */
  function RequiredEmail(v: Raw, f: Foreign): (r: Checked<string>)
    ensures v == Absent ==> r == Rejected(Missing("email"))
    ensures v == Null ==> r == Rejected(NotAString("email"))
    ensures r.Accepted? <==> v.Str? && f.isEmail(Lower(v.text))
    ensures r.Accepted? ==> r.value == Lower(v.text) && WellFormedEmail(r.value, f)
    ensures v.Str? && r.Rejected? ==> r.error == BadEmail
  {
    match v
    case Absent => Rejected(Missing("email"))
    case Null => Rejected(NotAString("email"))
    case Str(s) => CheckEmail(s, f)
  }

  /** `name` where it may be left out: an absent or null name passes the
      validators untouched. */
  function OptionalName(v: Raw, rule: NameRule, f: Foreign): (r: Checked<Option<string>>)
    ensures !v.Str? ==> r == Accepted(None)
    ensures v.Str? ==> (r.Accepted? <==> NameAccepted(rule, v.text, f))
    ensures r.Accepted? && v.Str? ==> r.value == Some(f.clean(Strip(v.text)))
  {
    match v
    case Absent => Accepted(None)
    case Null => Accepted(None)
    case Str(s) =>
      match NameCheck(rule, s, f)
      case Accepted(n) => Accepted(Some(n))
      case Rejected(e) => Rejected(e)
  }

  /** `email` where it may be left out. */
  function OptionalEmail(v: Raw, f: Foreign): (r: Checked<Option<string>>)
    ensures !v.Str? ==> r == Accepted(None)
    ensures v.Str? ==> (r.Accepted? <==> f.isEmail(Lower(v.text)))
    ensures r.Accepted? && v.Str? ==> r.value == Some(Lower(v.text))
  {
    match v
    case Absent => Accepted(None)
    case Null => Accepted(None)
    case Str(s) =>
      match CheckEmail(s, f)
      case Accepted(e) => Accepted(Some(e))
      case Rejected(e) => Rejected(e)
  }

  /** The errors of the two fields, `name` first. */
  function Errors<A, B>(a: Checked<A>, b: Checked<B>): seq<FieldError> {
    (if a.Rejected? then [a.error] else []) + (if b.Rejected? then [b.error] else [])
  }

  /** A `UserCreate` body: both fields required. */
  function ValidateCreate(body: RawUser, rule: NameRule, f: Foreign): (r: Validated<UserCreate>)
    ensures r.Valid? <==>
      && body.name.Str? && NameAccepted(rule, body.name.text, f)
      && body.email.Str? && f.isEmail(Lower(body.email.text))
    ensures r.Valid? ==>
      r.value == UserCreate(f.clean(Strip(body.name.text)), Lower(body.email.text))
    ensures r.Valid? ==> StoredName(rule, r.value.name) && WellFormedEmail(r.value.email, f)
    ensures r.Invalid? ==> |r.errors| > 0
    ensures body.name == Absent ==> r.Invalid? && Missing("name") in r.errors
    ensures body.email == Absent ==> r.Invalid? && Missing("email") in r.errors
    ensures body.email.Str? && !f.isEmail(Lower(body.email.text)) ==> r.Invalid? && BadEmail in r.errors
    ensures body.name.Str? && Blank(body.name.text) ==> r.Invalid? && BlankName in r.errors
  {
    var name := RequiredName(body.name, rule, f);
    var email := RequiredEmail(body.email, f);
    if name.Accepted? && email.Accepted? then Valid(UserCreate(name.value, email.value))
    else Invalid(Errors(name, email))
  }

  /** A `UserUpdate` body: both fields optional, `None` when left out. */
  function ValidateUpdate(body: RawUser, rule: NameRule, f: Foreign): (r: Validated<UserUpdate>)
    ensures r.Valid? <==>
      && (body.name.Str? ==> NameAccepted(rule, body.name.text, f))
      && (body.email.Str? ==> f.isEmail(Lower(body.email.text)))
    ensures r.Valid? ==> (r.value.name.Some? <==> body.name.Str?)
    ensures r.Valid? ==> (r.value.email.Some? <==> body.email.Str?)
    ensures r.Valid? && body.name.Str? ==> r.value.name.value == f.clean(Strip(body.name.text))
    ensures r.Valid? && body.email.Str? ==> r.value.email.value == Lower(body.email.text)
    ensures r.Valid? && r.value.name.Some? ==> StoredName(rule, r.value.name.value)
    ensures r.Valid? && r.value.email.Some? ==> WellFormedEmail(r.value.email.value, f)
    ensures r.Invalid? ==> |r.errors| > 0
    ensures !body.name.Str? && !body.email.Str? ==> r == Valid(UserUpdate(None, None))
  {
    var name := OptionalName(body.name, rule, f);
    var email := OptionalEmail(body.email, f);
    if name.Accepted? && email.Accepted? then Valid(UserUpdate(name.value, email.value))
    else Invalid(Errors(name, email))
  }

  /** `UserResponse` read from a row's attributes. */
  function FromRecord(u: User): (r: UserResponse)
    ensures User(r.id, r.name, r.email, r.createdAt) == u
  {
    UserResponse(u.id, u.name, u.email, u.createdAt)
  }
}
