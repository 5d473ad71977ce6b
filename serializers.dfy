/**
 * The validation and update rules of emails/serializers.py: the field checks
 * of the registration and email payloads, the username-existence check used
 * for sender and receiver, the registration decision, and what `create` and
 * `update` store. Text fields are checked the way the REST framework's
 * CharField checks them: surrounding whitespace is stripped first, the
 * stripped value must not be blank, and then every validator of the field
 * (length bounds, no null character) runs on it; the stripped value is what
 * is stored. A Dafny `char` is a Unicode scalar value, so the framework's
 * refusal of surrogate code points has nothing to refuse here.
 */
module Serializers {
  import opened Wrappers

  /** A user is referred to by its position in the user table. */
  type UserId = nat

  /** A row of the user table. `password` is what `set_password` stored, an opaque hash. */
  datatype Account = Account(username: string, firstName: string, lastName: string, password: Option<string>)

  /** A row of the email table. */
  datatype Email = Email(subject: string, message: string, read: bool, createdAt: int, sender: UserId, receiver: UserId)

  const UsernameMinLength: nat := 3
  const PasswordMinLength: nat := 8
  const SubjectMaxLength: nat := 100

  // ---------------------------------------------------------------------------
  // Whitespace trimming (Python's str.strip(), applied by every CharField)
  // ---------------------------------------------------------------------------

  /** The characters for which Python's `str.isspace()` holds. */
  predicate IsSpace(c: char) {
    || ('\t' <= c <= '\r') || ('\U{1c}' <= c <= '\U{1f}') || c == ' '
    || c == '\U{85}' || c == '\U{a0}' || c == '\U{1680}'
    || ('\U{2000}' <= c <= '\U{200a}') || c == '\U{2028}' || c == '\U{2029}'
    || c == '\U{202f}' || c == '\U{205f}' || c == '\U{3000}'
  }

  /** Drops leading whitespace: the result is the suffix of `s` that starts at its first non-space character. */
  function TrimStart(s: string): (r: string)
    ensures |r| <= |s| && r == s[|s| - |r|..]
    ensures r == [] || !IsSpace(r[0])
    ensures forall k :: 0 <= k < |s| - |r| ==> IsSpace(s[k])
  {
    if s != [] && IsSpace(s[0]) then
      var r := TrimStart(s[1..]);
      assert s[1..][|s| - 1 - |r|..] == s[|s| - |r|..];
      assert forall k :: 1 <= k < |s| - |r| ==> s[k] == s[1..][k - 1];
      r
    else
      s
  }

  /** Drops trailing whitespace: the result is the prefix of `s` that ends at its last non-space character. */
  function TrimEnd(s: string): (r: string)
    ensures |r| <= |s| && r == s[..|r|]
    ensures r == [] || !IsSpace(r[|r| - 1])
    ensures forall k :: |r| <= k < |s| ==> IsSpace(s[k])
  {
    if s != [] && IsSpace(s[|s| - 1]) then TrimEnd(s[..|s| - 1]) else s
  }

  /** `r` is `s` from position `i` on, with only whitespace dropped before `i` and after `r`. */
  predicate MiddleSlice(s: string, r: string, i: int) {
    && 0 <= i <= |s| - |r| && r == s[i..i + |r|]
    && (forall k :: 0 <= k < i ==> IsSpace(s[k]))
    && (forall k :: i + |r| <= k < |s| ==> IsSpace(s[k]))
  }

  /**
   * Python's `str.strip()`: the result is empty or starts and ends with a
   * non-space character; `TrimIsMiddleSlice` says which part of `s` it is.
   */
  function Trim(s: string): (r: string)
    ensures |r| <= |s|
    ensures r == [] || Unpadded(r)
  {
    var t := TrimStart(s);
    var r := TrimEnd(t);
    assert r == [] || r[0] == t[0];
    r
  }

  /**
   * `Trim(s)` is the middle slice of `s` left once a whitespace-only prefix
   * (as long as `TrimStart` drops) and a whitespace-only suffix are dropped.
   */
  lemma TrimIsMiddleSlice(s: string)
    ensures MiddleSlice(s, Trim(s), |s| - |TrimStart(s)|)
  {
    var t := TrimStart(s);
    assert Trim(s) == TrimEnd(t);
    StripsToMiddleSlice(s, t, TrimEnd(t));
  }

  /**
   * Dropping a whitespace-only prefix of `s` to get `t`, then a
   * whitespace-only suffix of `t` to get `r`, leaves `r` as a middle slice of `s`.
   */
  lemma StripsToMiddleSlice(s: string, t: string, r: string)
    requires |t| <= |s| && t == s[|s| - |t|..]
    requires forall k :: 0 <= k < |s| - |t| ==> IsSpace(s[k])
    requires |r| <= |t| && r == t[..|r|]
    requires forall k :: |r| <= k < |t| ==> IsSpace(t[k])
    ensures MiddleSlice(s, r, |s| - |t|)
  {
    var i := |s| - |t|;
    assert s[i..][..|r|] == s[i..i + |r|];
    forall k | i + |r| <= k < |s| ensures IsSpace(s[k]) {
      assert s[k] == t[k - i];
    }
  }

  /** Neither starts nor ends with whitespace, so trimming keeps it whole. */
  predicate Unpadded(s: string) {
    s != [] && !IsSpace(s[0]) && !IsSpace(s[|s| - 1])
  }

  /** A value is blank (trims to nothing) exactly when every character of it is whitespace. */
  lemma TrimmedBlankIffAllSpace(s: string)
    ensures Trim(s) == [] <==> forall k :: 0 <= k < |s| ==> IsSpace(s[k])
  {
    var t := TrimStart(s);
    if t != [] {
      assert t[0] == s[|s| - |t|];
    }
  }

  /** Trimming a trimmed value changes nothing: a stored value passes the same check again unchanged. */
  lemma TrimIdempotent(s: string)
    ensures Trim(Trim(s)) == Trim(s)
  {
    var t := Trim(s);
    if t != [] {
      assert TrimStart(t) == t;
    }
  }

  // ---------------------------------------------------------------------------
  // Field checks
  // ---------------------------------------------------------------------------

  /** The null character, which no CharField accepts. */
  const Nul: char := '\0'

  /**
   * Why a field was refused: missing, blank, naming no user, or failing the
   * field's validators. The validators all run, so `Invalid` reports each
   * one that failed: below `min_length`, above `max_length`, a null character.
   */
  datatype FieldError =
    | Required | Blank | UnknownUser
    | Invalid(tooShort: bool, tooLong: bool, nullCharacter: bool)

  /** A present field whose trimmed value is non-blank, at least `minLength` long and free of null characters. */
  predicate Filled(v: Option<string>, minLength: nat) {
    v.Some? && Trim(v.value) != [] && minLength <= |Trim(v.value)| && Nul !in Trim(v.value)
  }

  /**
   * A required CharField with `allow_blank=False`: present, non-blank after
   * trimming, then the validators on the trimmed value, which is what is kept.
   */
  function CharField(v: Option<string>, minLength: nat, maxLength: Option<nat>): (r: Result<string, FieldError>)
    ensures r.Ok? <==> Filled(v, minLength) && (maxLength.Some? ==> |Trim(v.value)| <= maxLength.value)
    ensures r.Ok? ==> r.value == Trim(v.value)
    ensures r == Err(Required) <==> v.None?
    ensures r == Err(Blank) <==> v.Some? && Trim(v.value) == []
  {
    if v.None? then Err(Required)
    else
      var t := Trim(v.value);
      if t == [] then Err(Blank)
      else
        var short := |t| < minLength;
        var long := maxLength.Some? && |t| > maxLength.value;
        var nul := Nul in t;
        if short || long || nul then Err(Invalid(short, long, nul)) else Ok(t)
  }

  /**
   * A present, non-blank value that fails is refused by its validators, and
   * each failing validator is reported: too short, too long, null character.
   */
  lemma CharFieldReportsEveryValidator(v: Option<string>, minLength: nat, maxLength: Option<nat>)
    requires v.Some? && Trim(v.value) != [] && CharField(v, minLength, maxLength).Err?
    ensures var e := CharField(v, minLength, maxLength).error;
      && e.Invalid?
      && (e.tooShort <==> |Trim(v.value)| < minLength)
      && (e.tooLong <==> maxLength.Some? && |Trim(v.value)| > maxLength.value)
      && (e.nullCharacter <==> Nul in Trim(v.value))
  {
  }

  // ---------------------------------------------------------------------------
  // Users by name
  // ---------------------------------------------------------------------------

  ghost predicate UsernameTaken(users: seq<Account>, name: string) {
    exists i :: 0 <= i < |users| && users[i].username == name
  }

  /** `User.objects.filter(username=name)` / `User.objects.get(username=name)`: the user with that name, if any. */
  function FindUser(users: seq<Account>, name: string): (r: Option<UserId>)
    ensures r.Some? ==> r.value < |users| && users[r.value].username == name
    ensures r.None? <==> !UsernameTaken(users, name)
  {
    if users == [] then None
    else if users[0].username == name then Some(0)
    else
      match FindUser(users[1..], name)
      case None =>
        assert forall i :: 1 <= i < |users| ==> users[i] == users[1..][i - 1];
        None
      case Some(k) => Some(k + 1)
  }

  /**
   * The nested `UserSerializer` used for sender and receiver: a required,
   * non-blank username whose trimmed value (`validate_username`) names an
   * existing user.
   */
  function ExistingUsername(users: seq<Account>, v: Option<string>): (r: Result<string, FieldError>)
    ensures r.Ok? <==> Filled(v, 0) && UsernameTaken(users, Trim(v.value))
    ensures r.Ok? ==> r.value == Trim(v.value)
    ensures r == Err(UnknownUser) <==> Filled(v, 0) && !UsernameTaken(users, Trim(v.value))
  {
    match CharField(v, 0, None)
    case Err(e) => Err(e)
    case Ok(name) => if FindUser(users, name).None? then Err(UnknownUser) else Ok(name)
  }

  // ---------------------------------------------------------------------------
  // Registration (UserSerializerWithToken)
  // ---------------------------------------------------------------------------

  datatype RegistrationPayload = RegistrationPayload(
    firstName: Option<string>, lastName: Option<string>, username: Option<string>,
    password: Option<string>, confirm: Option<string>)

  /** The validated data handed to `validate` and `create`. */
  datatype Registration = Registration(
    firstName: string, lastName: string, username: string, password: Option<string>, confirm: string)

  /** The two errors `validate` can report, possibly together. */
  datatype Verdict = Verdict(usernameError: bool, confirmError: bool)

  datatype RegistrationError =
    | FieldErrors(fields: RegistrationFieldErrors)
    | Rejected(verdict: Verdict)

  /** The field bounds: both names non-blank, username at least 3 characters, password and confirmation at least 8. */
  predicate RegistrationFieldsValid(p: RegistrationPayload) {
    && Filled(p.firstName, 0) && Filled(p.lastName, 0)
    && Filled(p.username, UsernameMinLength)
    && Filled(p.password, PasswordMinLength) && Filled(p.confirm, PasswordMinLength)
  }

  /** A field check's error, if it has one: the entry it leaves in the serializer's `errors` dict. */
  function ErrorOf(check: Result<string, FieldError>): Option<FieldError> {
    if check.Err? then Some(check.error) else None
  }

  /** The serializer's `errors` dict for the registration fields: each field's error, if any. */
  datatype RegistrationFieldErrors = RegistrationFieldErrors(
    firstName: Option<FieldError>, lastName: Option<FieldError>, username: Option<FieldError>,
    password: Option<FieldError>, confirm: Option<FieldError>)
  {
    predicate IsEmpty() {
      firstName.None? && lastName.None? && username.None? && password.None? && confirm.None?
    }
  }

  /** The field checks, each on its own field, as they run before `validate`. */
  function CheckRegistrationFields(p: RegistrationPayload): (e: RegistrationFieldErrors)
    ensures e.firstName.None? <==> Filled(p.firstName, 0)
    ensures e.lastName.None? <==> Filled(p.lastName, 0)
    ensures e.username.None? <==> Filled(p.username, UsernameMinLength)
    ensures e.password.None? <==> Filled(p.password, PasswordMinLength)
    ensures e.confirm.None? <==> Filled(p.confirm, PasswordMinLength)
    ensures e.IsEmpty() <==> RegistrationFieldsValid(p)
  {
    RegistrationFieldErrors(
      ErrorOf(CharField(p.firstName, 0, None)), ErrorOf(CharField(p.lastName, 0, None)),
      ErrorOf(CharField(p.username, UsernameMinLength, None)),
      ErrorOf(CharField(p.password, PasswordMinLength, None)),
      ErrorOf(CharField(p.confirm, PasswordMinLength, None)))
  }

  /** `validate`: the username is taken, and/or the password and its confirmation differ. */
  function CheckRegistration(users: seq<Account>, data: Registration): (v: Verdict)
    ensures v.usernameError <==> UsernameTaken(users, data.username)
    ensures v.confirmError <==> data.password != Some(data.confirm)
  {
    Verdict(FindUser(users, data.username).Some?, data.password != Some(data.confirm))
  }

  /** `is_valid()` of the registration serializer: the field checks, then `validate` when they all pass. */
  function ValidateRegistration(users: seq<Account>, p: RegistrationPayload): (r: Result<Registration, RegistrationError>)
    ensures r.Ok? <==>
      && RegistrationFieldsValid(p)
      && !UsernameTaken(users, Trim(p.username.value))
      && Trim(p.password.value) == Trim(p.confirm.value)
    ensures r.Ok? ==>
      r.value == Registration(Trim(p.firstName.value), Trim(p.lastName.value), Trim(p.username.value),
                              Some(Trim(p.password.value)), Trim(p.confirm.value))
    ensures (r.Err? && r.error.FieldErrors?) <==> !RegistrationFieldsValid(p)
    ensures r.Err? && r.error.FieldErrors? ==> r.error.fields == CheckRegistrationFields(p)
    ensures r.Err? && r.error.Rejected? ==>
      && RegistrationFieldsValid(p)
      && (r.error.verdict.usernameError <==> UsernameTaken(users, Trim(p.username.value)))
      && (r.error.verdict.confirmError <==> Trim(p.password.value) != Trim(p.confirm.value))
  {
    var errors := CheckRegistrationFields(p);
    if !errors.IsEmpty() then Err(FieldErrors(errors))
    else
      var data := Registration(Trim(p.firstName.value), Trim(p.lastName.value), Trim(p.username.value),
                               Some(Trim(p.password.value)), Trim(p.confirm.value));
      var v := CheckRegistration(users, data);
      if v.usernameError || v.confirmError then Err(Rejected(v)) else Ok(data)
  }

  /**
   * `create`: `password` and `confirm` are popped off; an account is built from
   * the rest and saved only when a password was there, holding its hash.
   */
  function CreateAccount(data: Registration, hash: string -> string): (a: Option<Account>)
    ensures a.Some? <==> data.password.Some?
    ensures a.Some? ==>
      && a.value.username == data.username
      && a.value.firstName == data.firstName && a.value.lastName == data.lastName
      && a.value.password == Some(hash(data.password.value))
  {
    match data.password
    case None => None
    case Some(pw) => Some(Account(data.username, data.firstName, data.lastName, Some(hash(pw))))
  }

  // ---------------------------------------------------------------------------
  // Emails (EmailSerializer)
  // ---------------------------------------------------------------------------

  /**
   * The email payload as the serializer receives it. `sender` and `receiver`
   * stand for the nested `{username: ...}` objects; a missing object and an
   * object without a username are both `None`.
   */
  datatype EmailPayload = EmailPayload(
    subject: Option<string>, message: Option<string>, read: Option<bool>, createdAt: Option<int>,
    sender: Option<string>, receiver: Option<string>)

  /** The serializer's `errors` dict for an email: each field's error, if any. */
  datatype EmailErrors = EmailErrors(
    subject: Option<FieldError>, message: Option<FieldError>, sender: Option<FieldError>, receiver: Option<FieldError>)
  {
    predicate IsEmpty() {
      subject.None? && message.None? && sender.None? && receiver.None?
    }
  }

  datatype ValidatedEmail = ValidatedEmail(
    subject: string, message: string, read: Option<bool>, createdAt: Option<int>,
    sender: string, receiver: string)

  /** A username field that passes the nested serializer: present, non-blank, naming an existing user once trimmed. */
  ghost predicate NamesUser(users: seq<Account>, v: Option<string>) {
    Filled(v, 0) && UsernameTaken(users, Trim(v.value))
  }

  /** The email field bounds: subject non-blank and at most 100 characters, message non-blank, sender and receiver existing users. */
  ghost predicate EmailFieldsValid(users: seq<Account>, p: EmailPayload) {
    && Filled(p.subject, 0) && |Trim(p.subject.value)| <= SubjectMaxLength
    && Filled(p.message, 0)
    && NamesUser(users, p.sender) && NamesUser(users, p.receiver)
  }

  /** Both usernames of validated data resolve, as `create` needs. */
  ghost predicate Resolvable(users: seq<Account>, v: ValidatedEmail) {
    UsernameTaken(users, v.sender) && UsernameTaken(users, v.receiver)
  }

  /** The email field checks, each on its own field: subject, message, and the nested sender and receiver. */
  function CheckEmailFields(users: seq<Account>, p: EmailPayload): (e: EmailErrors)
    ensures e.subject.None? <==> Filled(p.subject, 0) && |Trim(p.subject.value)| <= SubjectMaxLength
    ensures e.message.None? <==> Filled(p.message, 0)
    ensures e.sender.None? <==> NamesUser(users, p.sender)
    ensures e.receiver.None? <==> NamesUser(users, p.receiver)
  {
    EmailErrors(
      ErrorOf(CharField(p.subject, 0, Some(SubjectMaxLength))), ErrorOf(CharField(p.message, 0, None)),
      ErrorOf(ExistingUsername(users, p.sender)), ErrorOf(ExistingUsername(users, p.receiver)))
  }

  /** `is_valid()` of the email serializer: every field is checked and every failing field is reported. */
  function ValidateEmail(users: seq<Account>, p: EmailPayload): (r: Result<ValidatedEmail, EmailErrors>)
    ensures r.Ok? <==> EmailFieldsValid(users, p)
    ensures r.Ok? ==>
      && r.value == ValidatedEmail(Trim(p.subject.value), Trim(p.message.value), p.read, p.createdAt,
                                   Trim(p.sender.value), Trim(p.receiver.value))
      && Resolvable(users, r.value)
    ensures r.Err? ==>
      && (r.error.subject.None? <==> Filled(p.subject, 0) && |Trim(p.subject.value)| <= SubjectMaxLength)
      && (r.error.message.None? <==> Filled(p.message, 0))
      && (r.error.sender.None? <==> NamesUser(users, p.sender))
      && (r.error.receiver.None? <==> NamesUser(users, p.receiver))
  {
    var errors := CheckEmailFields(users, p);
    if errors.IsEmpty() then
      Ok(ValidatedEmail(Trim(p.subject.value), Trim(p.message.value), p.read, p.createdAt,
                        Trim(p.sender.value), Trim(p.receiver.value)))
    else
      Err(errors)
  }

  /**
   * `create`: sender and receiver are replaced by the users their names
   * resolve to; the other validated fields are stored as given. The Email
   * model's defaults are assumed: an absent `read` is stored as false and an
   * absent `created_at` as the clock value `now`.
   */
  function CreateEmail(users: seq<Account>, v: ValidatedEmail, now: int): (e: Email)
    requires Resolvable(users, v)
    ensures e.sender < |users| && users[e.sender].username == v.sender
    ensures e.receiver < |users| && users[e.receiver].username == v.receiver
    ensures e.subject == v.subject && e.message == v.message
    ensures e.read == v.read.GetOr(false) && e.createdAt == v.createdAt.GetOr(now)
  {
    Email(v.subject, v.message, v.read.GetOr(false), v.createdAt.GetOr(now),
          FindUser(users, v.sender).value, FindUser(users, v.receiver).value)
  }

  /** `update`: only `read` changes, and an absent `read` keeps the old value. */
  function UpdateRead(e: Email, v: ValidatedEmail): (r: Email)
    ensures r.subject == e.subject && r.message == e.message && r.createdAt == e.createdAt
    ensures r.sender == e.sender && r.receiver == e.receiver
    ensures r.read == if v.read.Some? then v.read.value else e.read
    ensures r == e <==> v.read.None? || v.read.value == e.read
  {
    e.(read := v.read.GetOr(e.read))
  }

  // ---------------------------------------------------------------------------
  // The receiver lookup at emails/views.py:99
  // ---------------------------------------------------------------------------

  /**
   * As written, the send handler looks the receiver up again by the name in the
   * raw payload, not by the trimmed name validation checked.
   */
  function InboxRecipientAsWritten(users: seq<Account>, p: EmailPayload): (r: Option<UserId>)
    ensures r.Some? ==> p.receiver.Some? && r.value < |users| && users[r.value].username == p.receiver.value
    ensures r.None? <==> p.receiver.None? || !UsernameTaken(users, p.receiver.value)
  {
    if p.receiver.None? then None else FindUser(users, p.receiver.value)
  }

  /**
   * A receiver name with a leading space passes validation (it names "bob" once
   * trimmed) but the lookup as written finds nobody, so `get` raises after the
   * email and its attachments were saved and before any Inbox or Sent row exists.
   */
  lemma PaddedReceiverValidatesButIsNotFound()
    ensures ValidateEmail(ExampleUsers, PaddedPayload).Ok?
    ensures InboxRecipientAsWritten(ExampleUsers, PaddedPayload) == None
  {
    assert ExampleUsers[0].username == "bob";
    assert " bob"[1..] == "bob";
    PaddedReceiverValidates(ExampleUsers, PaddedPayload);
    assert FindUser(ExampleUsers, " bob") == None by {
      assert " bob" != "bob" by { assert " bob"[0] != "bob"[0]; }
    }
  }

  /** The user table of the example: one user, "bob". */
  const ExampleUsers: seq<Account> := [Account("bob", "Bob", "Stone", None)]

  /** bob writes to himself, naming the receiver with a leading space. */
  const PaddedPayload: EmailPayload := EmailPayload(Some("Hi"), Some("Hello"), None, None, Some("bob"), Some(" bob"))

  /** A payload whose receiver carries one leading space in front of an existing username still validates. */
  lemma PaddedReceiverValidates(users: seq<Account>, p: EmailPayload)
    requires p.subject.Some? && Unpadded(p.subject.value) && |p.subject.value| <= SubjectMaxLength && Nul !in p.subject.value
    requires p.message.Some? && Unpadded(p.message.value) && Nul !in p.message.value
    requires p.sender.Some? && Unpadded(p.sender.value) && UsernameTaken(users, p.sender.value) && Nul !in p.sender.value
    requires p.receiver.Some? && |p.receiver.value| > 1 && p.receiver.value[0] == ' '
    requires Unpadded(p.receiver.value[1..]) && UsernameTaken(users, p.receiver.value[1..]) && Nul !in p.receiver.value
    ensures EmailFieldsValid(users, p)
  {
    UnpaddedTrim(p.subject.value);
    UnpaddedTrim(p.message.value);
    UnpaddedTrim(p.sender.value);
    LeadingSpaceTrim(p.receiver.value);
  }

  lemma LeadingSpaceTrim(padded: string)
    requires |padded| > 1 && padded[0] == ' ' && Unpadded(padded[1..])
    ensures Trim(padded) == padded[1..]
  {
  }

  lemma UnpaddedTrim(s: string)
    requires Unpadded(s)
    ensures Trim(s) == s
  {
  }

  /**
   * The corrected lookup: the Inbox row goes to the user `create` resolved as
   * the receiver, which for every valid payload exists and carries the trimmed
   * name that validation checked.
   */
  lemma {:induction false} ValidEmailHasInboxRecipient(users: seq<Account>, p: EmailPayload, now: int)
    requires ValidateEmail(users, p).Ok?
    ensures var e := CreateEmail(users, ValidateEmail(users, p).value, now);
      && e.receiver < |users| && users[e.receiver].username == Trim(p.receiver.value)
      && e.sender < |users| && users[e.sender].username == Trim(p.sender.value)
  {
  }
}
