/** The account request schemas: AdminCreate and AdminUpdate
    (src/models/admin.py) and TechnicalCreate, TechnicalUpdate and the
    technical status literal (src/models/technical_model.py). As for the
    product schemas, fields are validated in declaration order and every
    failing field adds one error; lengths count code points. */
module Accounts {
  import opened Common
  import opened Patterns

  datatype AccountError =
    | Required(field: string)
    | TooShort(field: string, min: nat)
    | TooLong(field: string, max: nat)
    | BadContact      // "Must be a valid email or phone number"
    | BadPhone        // "Must be a valid phone number (digits only, optional + at start)"
    | BadStatus       // not one of the TechnicalStatus literals

  datatype Checked<T> = Accepted(value: T) | Refused(errors: seq<AccountError>)

  /** TechnicalStatus = Literal['free', 'busy', 'off_duty']. */
  datatype Status = Free | Busy | OffDuty

  function StatusName(st: Status): (s: string)
    ensures |s| >= 4
  {
    match st
    case Free => "free"
    case Busy => "busy"
    case OffDuty => "off_duty"
  }

  /** The literal check: a status is accepted only as one of its names. */
  function ParseStatus(s: string): (r: Option<Status>)
    ensures r.Some? ==> StatusName(r.value) == s
  {
    if s == "free" then Some(Free)
    else if s == "busy" then Some(Busy)
    else if s == "off_duty" then Some(OffDuty)
    else None
  }

  /** Every status name parses back to its status, and nothing else
      parses. */
  lemma StatusRoundTrip(s: string, st: Status)
    ensures ParseStatus(StatusName(st)) == Some(st)
    ensures ParseStatus(s) == Some(st) <==> s == StatusName(st)
  {
    match st
    case Free =>
    case Busy => assert "busy" != "free";
    case OffDuty => assert "off_duty" != "free" && "off_duty" != "busy";
  }

  /** Field(min_length=lo, max_length=hi) on a string. */
  function LengthErrors(field: string, s: string, lo: nat, hi: Option<nat>): (e: seq<AccountError>)
    ensures e == [] <==> lo <= |s| && (hi.Some? ==> |s| <= hi.value)
    ensures |e| <= 1
  {
    if |s| < lo then [TooShort(field, lo)]
    else if hi.Some? && |s| > hi.value then [TooLong(field, hi.value)]
    else []
  }

  /** A required string field with length bounds. */
  function RequiredLength(field: string, s: Option<string>, lo: nat, hi: Option<nat>): (e: seq<AccountError>)
    ensures e == [] <==> s.Some? && lo <= |s.value| && (hi.Some? ==> |s.value| <= hi.value)
  {
    if s.None? then [Required(field)] else LengthErrors(field, s.value, lo, hi)
  }

  /** An optional string field with length bounds: None passes. */
  function OptionalLength(field: string, s: Option<string>, lo: nat, hi: Option<nat>): (e: seq<AccountError>)
    ensures e == [] <==> s.None? || (lo <= |s.value| && (hi.Some? ==> |s.value| <= hi.value))
  {
    if s.None? then [] else LengthErrors(field, s.value, lo, hi)
  }

  /** What the contact check accepts, without the regular expressions: an
      email address or a phone number, optionally followed by one newline. */
  ghost predicate ContactForm(v: string) {
    exists t :: UpToNewline(v, t) && (EmailAddress(t) || PhoneNumber(t))
  }

  /** AdminCreate.validate_contact accepts exactly the contact forms. */
  lemma ContactIff(v: string)
    ensures ValidContact(v) <==> ContactForm(v)
  {
    EmailMatchIff(v);
    PhoneMatchIff(v);
  }

  /** What validate_phone accepts, without the regular expression. */
  ghost predicate PhoneForm(v: string) {
    exists t :: UpToNewline(v, t) && PhoneNumber(t)
  }

  function PhoneErrors(v: string): (e: seq<AccountError>)
    ensures e == [] <==> PhoneForm(v)
    ensures e != [] ==> e == [BadPhone]
  {
    PhoneMatchIff(v);
    if Matches(PhonePattern, v) then [] else [BadPhone]
  }

  function ContactErrors(v: string): (e: seq<AccountError>)
    ensures e == [] <==> ContactForm(v)
    ensures e != [] ==> e == [BadContact]
  {
    ContactIff(v);
    if ValidContact(v) then [] else [BadContact]
  }

  datatype AdminCreatePayload = AdminCreatePayload(username: Option<string>, password: Option<string>, emailPhone: Option<string>)
  datatype AdminCreate = AdminCreate(username: string, password: string, emailPhone: string)

  ghost predicate AdminCreateRules(p: AdminCreatePayload) {
    && p.username.Some? && 4 <= |p.username.value| <= 50
    && p.password.Some? && 8 <= |p.password.value|
    && p.emailPhone.Some? && ContactForm(p.emailPhone.value)
  }

  /** AdminCreate(**payload): the contact value is kept as given. */
  function ValidateAdminCreate(p: AdminCreatePayload): (r: Checked<AdminCreate>)
    ensures r.Accepted? <==> AdminCreateRules(p)
    ensures r.Accepted? ==> r.value == AdminCreate(p.username.value, p.password.value, p.emailPhone.value)
    ensures r.Refused? ==> r.errors != []
  {
    var contactErrors := if p.emailPhone.None? then [Required("email_phone")] else ContactErrors(p.emailPhone.value);
    var errors := RequiredLength("username", p.username, 4, Some(50))
      + RequiredLength("password", p.password, 8, None) + contactErrors;
    if errors != [] then Refused(errors)
    else Accepted(AdminCreate(p.username.value, p.password.value, p.emailPhone.value))
  }

  datatype AdminUpdate = AdminUpdate(username: Option<string>, password: Option<string>, emailPhone: Option<string>)

  /** AdminUpdate(**payload): bounds on the fields given; email_phone is
      not checked at all. */
  function ValidateAdminUpdate(p: AdminUpdate): (r: Checked<AdminUpdate>)
    ensures r.Accepted? <==>
      (p.username.Some? ==> 4 <= |p.username.value| <= 50) && (p.password.Some? ==> 8 <= |p.password.value|)
    ensures r.Accepted? ==> r.value == p
  {
    var errors := OptionalLength("username", p.username, 4, Some(50)) + OptionalLength("password", p.password, 8, None);
    if errors != [] then Refused(errors) else Accepted(p)
  }

  /** Any contact value passes an update, even one a create refuses. */
  lemma AdminUpdateSkipsContact(contact: string)
    requires !ContactForm(contact)
    ensures ValidateAdminUpdate(AdminUpdate(None, None, Some(contact))).Accepted?
    ensures !ValidateAdminCreate(AdminCreatePayload(Some("admin"), Some("password"), Some(contact))).Accepted?
  {
  }

  datatype TechnicalCreatePayload = TechnicalCreatePayload(
    username: Option<string>, password: Option<string>, name: Option<string>, phoneNumber: Option<string>)
  datatype TechnicalCreate = TechnicalCreate(username: string, password: string, name: string, phoneNumber: string)

  ghost predicate TechnicalCreateRules(p: TechnicalCreatePayload) {
    && p.username.Some? && 4 <= |p.username.value| <= 50
    && p.password.Some? && 8 <= |p.password.value|
    && p.name.Some?
    && p.phoneNumber.Some? && PhoneForm(p.phoneNumber.value)
  }

  /** TechnicalCreate(**payload): the phone number is kept as given. */
  function ValidateTechnicalCreate(p: TechnicalCreatePayload): (r: Checked<TechnicalCreate>)
    ensures r.Accepted? <==> TechnicalCreateRules(p)
    ensures r.Accepted? ==> r.value == TechnicalCreate(p.username.value, p.password.value, p.name.value, p.phoneNumber.value)
    ensures r.Refused? ==> r.errors != []
  {
    var errors := RequiredLength("username", p.username, 4, Some(50))
      + RequiredLength("password", p.password, 8, None)
      + (if p.name.None? then [Required("name")] else [])
      + (if p.phoneNumber.None? then [Required("phone_number")] else PhoneErrors(p.phoneNumber.value));
    if errors != [] then Refused(errors)
    else Accepted(TechnicalCreate(p.username.value, p.password.value, p.name.value, p.phoneNumber.value))
  }

  datatype TechnicalUpdatePayload = TechnicalUpdatePayload(
    username: Option<string>, password: Option<string>, name: Option<string>,
    phoneNumber: Option<string>, status: Option<string>)
  datatype TechnicalUpdate = TechnicalUpdate(
    username: Option<string>, password: Option<string>, name: Option<string>,
    phoneNumber: Option<string>, status: Option<Status>)

  ghost predicate TechnicalUpdateRules(p: TechnicalUpdatePayload) {
    && (p.username.Some? ==> 4 <= |p.username.value| <= 50)
    && (p.password.Some? ==> 8 <= |p.password.value|)
    && (p.phoneNumber.Some? ==> PhoneForm(p.phoneNumber.value))
    && (p.status.Some? ==> p.status.value in {"free", "busy", "off_duty"})
  }

  /** TechnicalUpdate(**payload): a phone number is checked only when one
      is given, and a status must be one of the literals. */
  function ValidateTechnicalUpdate(p: TechnicalUpdatePayload): (r: Checked<TechnicalUpdate>)
    ensures r.Accepted? <==> TechnicalUpdateRules(p)
    ensures r.Accepted? ==>
      && r.value.username == p.username && r.value.password == p.password && r.value.name == p.name
      && r.value.phoneNumber == p.phoneNumber
      && (p.status.None? <==> r.value.status.None?)
      && (p.status.Some? ==> StatusName(r.value.status.value) == p.status.value)
  {
    var status := if p.status.None? then None else ParseStatus(p.status.value);
    var errors := OptionalLength("username", p.username, 4, Some(50))
      + OptionalLength("password", p.password, 8, None)
      + (if p.phoneNumber.None? then [] else PhoneErrors(p.phoneNumber.value))
      + (if p.status.Some? && status.None? then [BadStatus] else []);
    if errors != [] then Refused(errors)
    else Accepted(TechnicalUpdate(p.username, p.password, p.name, p.phoneNumber, status))
  }

  /** The bounds are the same on create and on update: a username and a
      password that pass one pass the other. */
  lemma AccountBoundsAgree(username: string, password: string, phone: string)
    requires PhoneForm(phone)
    ensures ValidateTechnicalCreate(TechnicalCreatePayload(Some(username), Some(password), Some("x"), Some(phone))).Accepted?
        <==> ValidateTechnicalUpdate(TechnicalUpdatePayload(Some(username), Some(password), None, None, None)).Accepted?
    ensures ValidateTechnicalUpdate(TechnicalUpdatePayload(Some(username), Some(password), None, None, None)).Accepted?
        <==> ValidateAdminUpdate(AdminUpdate(Some(username), Some(password), None)).Accepted?
  {
  }
}
