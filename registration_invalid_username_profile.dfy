/**
 * `RegistrationInvalidUsernameProfile`, the registration form action that
 * checks the whole profile: first and last name, e-mail (missing, malformed,
 * already taken) and username (missing, denylisted, not matching the
 * pattern). Every check runs and adds its message; there is no early return.
 * Its `success` copies the four fields onto the new user.
 */
module RegistrationInvalidUsernameProfile {
  import opened Java
  import opened Keycloak
  import opened FormValidation

  /** Configuration keys of the form action. */
  const USERNAME_REGEX := "profile.username.regex"
  const INVALID_USERNAMES := "profile.username.invalid"

  /** `Validation.isEmailValid`, whose grammar is Keycloak's and is taken as given. */
  type EmailSyntax = string -> bool

  /** The submitted e-mail is present and passes the syntax check (the `emailValid` flag). */
  predicate EmailValid(form: Form, isEmailValid: EmailSyntax)
  {
    var email := GetFirst(form, FIELD_EMAIL);
    !IsBlank(email) && isEmailValid(email.value)
  }

  /** The e-mail is valid, duplicates are forbidden and another user already has it. */
  predicate EmailTaken(form: Form, realm: Realm, store: UserStore, isEmailValid: EmailSyntax)
  {
    EmailValid(form, isEmailValid) && !realm.duplicateEmailsAllowed
    && store.byEmail(GetFirst(form, FIELD_EMAIL).value).Some?
  }

  /** The two name checks, in order. */
  function NameChecks(form: Form): seq<Check>
  {
    [ Check(IsBlank(GetFirst(form, FIELD_FIRST_NAME)), FormMessage(FirstName, MissingFirstName), None),
      Check(IsBlank(GetFirst(form, FIELD_LAST_NAME)), FormMessage(LastName, MissingLastName), None) ]
  }

  /** The three e-mail checks, in order; only the last one sets an event error. */
  function EmailChecks(form: Form, realm: Realm, store: UserStore, isEmailValid: EmailSyntax): seq<Check>
  {
    var email := GetFirst(form, FIELD_EMAIL);
    [ Check(IsBlank(email), FormMessage(Email, MissingEmail), None),
      Check(!IsBlank(email) && !isEmailValid(email.value), FormMessage(Email, InvalidEmail), None),
      Check(EmailTaken(form, realm, store, isEmailValid), FormMessage(Email, EmailExists), Some(EmailInUse)) ]
  }

  /**
   * The denylist is on the lower-cased username, as one of the pieces of the
   * lower-cased list split at commas.
   */
  predicate Denylisted(config: map<string, string>, username: string)
    requires INVALID_USERNAMES in config
  {
    Lower(username) in Split(Lower(config[INVALID_USERNAMES]), ',')
  }

  /**
   * The username is non-blank, so the configuration is read, and reading it
   * cannot fail: both keys are present and the pattern compiles.
   */
  predicate UsernameEvaluated(form: Form, config: map<string, string>, regex: Regex)
  {
    !IsBlank(GetFirst(form, FIELD_USERNAME)) && INVALID_USERNAMES in config && USERNAME_REGEX in config
    && regex.compiles(config[USERNAME_REGEX])
  }

  /** The username checks: the missing message for a blank one, else the denylist and the pattern. */
  function UsernameChecks(form: Form, config: map<string, string>, regex: Regex): seq<Check>
    requires IsBlank(GetFirst(form, FIELD_USERNAME)) || UsernameEvaluated(form, config, regex)
  {
    var username := GetFirst(form, FIELD_USERNAME);
    if IsBlank(username) then [Check(true, FormMessage(Username, MissingUsername), None)]
    else
      [ Check(Denylisted(config, username.value), FormMessage(Username, UsernameNotAvailable), Some(InvalidUserCredentials)),
        Check(!regex.fullMatch(config[USERNAME_REGEX], username.value), FormMessage(Username, InvalidUsernameCharacters), Some(InvalidUserCredentials)) ]
  }

  /**
   * The exception a non-blank username meets while reading the configuration:
   * the denylist is dereferenced first, then the pattern is compiled.
   */
  function UsernameFault(form: Form, config: map<string, string>, regex: Regex): Option<Fault>
  {
    if IsBlank(GetFirst(form, FIELD_USERNAME)) then None
    else if INVALID_USERNAMES !in config then Some(NullPointer)
    else if USERNAME_REGEX !in config then Some(NullPointer)
    else if !regex.compiles(config[USERNAME_REGEX]) then Some(PatternSyntax)
    else None
  }

  /** Every check of `validate`, in the order it runs them. */
  function AllChecks(form: Form, config: map<string, string>, regex: Regex, realm: Realm, store: UserStore, isEmailValid: EmailSyntax): seq<Check>
    requires UsernameFault(form, config, regex).None?
  {
    NameChecks(form) + EmailChecks(form, realm, store, isEmailValid) + UsernameChecks(form, config, regex)
  }

  /** The verdict `validate` reaches. */
  function Outcome(form: Form, config: map<string, string>, regex: Regex, realm: Realm, store: UserStore, isEmailValid: EmailSyntax): Verdict
  {
    var fault := UsernameFault(form, config, regex);
    if fault.Some? then Thrown(fault.value)
    else Decide(AllChecks(form, config, regex, realm, store, isEmailValid), InvalidRegistration)
  }

  /** The name messages: first name, then last name. */
  function NameMessages(form: Form): seq<FormMessage>
  {
    (if IsBlank(GetFirst(form, FIELD_FIRST_NAME)) then [FormMessage(FirstName, MissingFirstName)] else [])
    + (if IsBlank(GetFirst(form, FIELD_LAST_NAME)) then [FormMessage(LastName, MissingLastName)] else [])
  }

  /** The e-mail gets at most one message: missing, else malformed, else taken. */
  function EmailMessages(form: Form, realm: Realm, store: UserStore, isEmailValid: EmailSyntax): seq<FormMessage>
  {
    var email := GetFirst(form, FIELD_EMAIL);
    if IsBlank(email) then [FormMessage(Email, MissingEmail)]
    else if !isEmailValid(email.value) then [FormMessage(Email, InvalidEmail)]
    else if EmailTaken(form, realm, store, isEmailValid) then [FormMessage(Email, EmailExists)]
    else []
  }

  /** The username messages: missing alone, or unavailable and then invalid characters. */
  function UsernameMessages(form: Form, config: map<string, string>, regex: Regex): seq<FormMessage>
    requires UsernameFault(form, config, regex).None?
  {
    var username := GetFirst(form, FIELD_USERNAME);
    if IsBlank(username) then [FormMessage(Username, MissingUsername)]
    else
      (if Denylisted(config, username.value) then [FormMessage(Username, UsernameNotAvailable)] else [])
      + (if !regex.fullMatch(config[USERNAME_REGEX], username.value) then [FormMessage(Username, InvalidUsernameCharacters)] else [])
  }

  /** A failed username check (denylist or pattern) on a non-blank username. */
  predicate UsernameRejected(form: Form, config: map<string, string>, regex: Regex)
    requires UsernameFault(form, config, regex).None?
  {
    var username := GetFirst(form, FIELD_USERNAME);
    !IsBlank(username) && (Denylisted(config, username.value) || !regex.fullMatch(config[USERNAME_REGEX], username.value))
  }

  /**
   * The event error reported on rejection: a failed username check wins over
   * a taken e-mail, which wins over the default `INVALID_REGISTRATION`.
   */
  function ReportedCode(form: Form, config: map<string, string>, regex: Regex, realm: Realm, store: UserStore, isEmailValid: EmailSyntax): EventError
    requires UsernameFault(form, config, regex).None?
  {
    if UsernameRejected(form, config, regex) then InvalidUserCredentials
    else if EmailTaken(form, realm, store, isEmailValid) then EmailInUse
    else InvalidRegistration
  }

  /** The name checks add the name messages and set no event error. */
  lemma NamesRun(form: Form, initial: EventError)
    ensures Messages(NameChecks(form)) == NameMessages(form)
    ensures Recorded(NameChecks(form), initial) == initial
  {
    var names := NameChecks(form);
    Two(names[0], names[1], initial);
    assert names == [names[0], names[1]];
  }

  /** The three e-mail checks add at most one message, and only a taken e-mail sets `EMAIL_IN_USE`. */
  lemma EmailRun(form: Form, realm: Realm, store: UserStore, isEmailValid: EmailSyntax, initial: EventError)
    ensures Messages(EmailChecks(form, realm, store, isEmailValid)) == EmailMessages(form, realm, store, isEmailValid)
    ensures Recorded(EmailChecks(form, realm, store, isEmailValid), initial)
            == if EmailTaken(form, realm, store, isEmailValid) then EmailInUse else initial
  {
    var mail := EmailChecks(form, realm, store, isEmailValid);
    Three(mail[0], mail[1], mail[2], initial);
    assert mail == [mail[0], mail[1], mail[2]];
    assert Emitted(mail[0]) + Emitted(mail[1]) + Emitted(mail[2]) == EmailMessages(form, realm, store, isEmailValid);
  }

  /** The username checks add the username messages and set `INVALID_USER_CREDENTIALS` on a failure. */
  lemma UsernameRun(form: Form, config: map<string, string>, regex: Regex, initial: EventError)
    requires UsernameFault(form, config, regex).None?
    ensures Messages(UsernameChecks(form, config, regex)) == UsernameMessages(form, config, regex)
    ensures Recorded(UsernameChecks(form, config, regex), initial)
            == if UsernameRejected(form, config, regex) then InvalidUserCredentials else initial
  {
    var user := UsernameChecks(form, config, regex);
    if IsBlank(GetFirst(form, FIELD_USERNAME)) {
      Step([], user[0], initial);
      assert [] + [user[0]] == user;
    } else {
      Two(user[0], user[1], initial);
      assert user == [user[0], user[1]];
    }
  }

  /**
   * The run of all checks collapses to the closed forms: the messages are the
   * name, e-mail and username messages in that order, and the recorded code
   * is `ReportedCode`.
   */
  lemma ChecksCollapse(form: Form, config: map<string, string>, regex: Regex, realm: Realm, store: UserStore, isEmailValid: EmailSyntax)
    requires UsernameFault(form, config, regex).None?
    ensures Messages(AllChecks(form, config, regex, realm, store, isEmailValid))
            == NameMessages(form) + EmailMessages(form, realm, store, isEmailValid) + UsernameMessages(form, config, regex)
    ensures Recorded(AllChecks(form, config, regex, realm, store, isEmailValid), InvalidRegistration)
            == ReportedCode(form, config, regex, realm, store, isEmailValid)
  {
    var names := NameChecks(form);
    var mail := EmailChecks(form, realm, store, isEmailValid);
    var user := UsernameChecks(form, config, regex);
    NamesRun(form, InvalidRegistration);
    EmailRun(form, realm, store, isEmailValid, InvalidRegistration);
    var afterMail := Recorded(mail, InvalidRegistration);
    UsernameRun(form, config, regex, afterMail);
    MessagesAppend(names, mail);
    MessagesAppend(names + mail, user);
    RecordedAppend(names, mail, InvalidRegistration);
    RecordedAppend(names + mail, user, InvalidRegistration);
  }

  /** The messages `validate` shows when it does not throw, in closed form. */
  function ProfileErrors(form: Form, config: map<string, string>, regex: Regex, realm: Realm, store: UserStore, isEmailValid: EmailSyntax): seq<FormMessage>
    requires UsernameFault(form, config, regex).None?
  {
    NameMessages(form) + EmailMessages(form, realm, store, isEmailValid) + UsernameMessages(form, config, regex)
  }

  /** The verdict in closed form: a fault, or the collected messages and the winning code. */
  lemma ProfileOutcome(form: Form, config: map<string, string>, regex: Regex, realm: Realm, store: UserStore, isEmailValid: EmailSyntax)
    requires UsernameFault(form, config, regex).None?
    ensures var errors := NameMessages(form) + EmailMessages(form, realm, store, isEmailValid) + UsernameMessages(form, config, regex);
            Outcome(form, config, regex, realm, store, isEmailValid)
            == if errors == [] then Accepted else Rejected(ReportedCode(form, config, regex, realm, store, isEmailValid), errors)
    ensures ErrorsOf(Outcome(form, config, regex, realm, store, isEmailValid)) == ProfileErrors(form, config, regex, realm, store, isEmailValid)
  {
    ChecksCollapse(form, config, regex, realm, store, isEmailValid);
  }

  /** A concatenation starts with its first part, and every later element is one of the second part's. */
  lemma PrefixThenRest(front: seq<FormMessage>, rest: seq<FormMessage>)
    ensures front <= front + rest
    ensures forall k :: |front| <= k < |front + rest| ==> (front + rest)[k] in rest
  {
    forall k | |front| <= k < |front + rest| ensures (front + rest)[k] in rest {
      assert (front + rest)[k] == rest[k - |front|];
    }
  }

  /** Names, e-mail and username messages are on their own fields. */
  lemma MessageFields(form: Form, config: map<string, string>, regex: Regex, realm: Realm, store: UserStore, isEmailValid: EmailSyntax)
    requires UsernameFault(form, config, regex).None?
    ensures forall m :: m in NameMessages(form) ==> m.field == FirstName || m.field == LastName
    ensures forall m :: m in EmailMessages(form, realm, store, isEmailValid) ==> m.field == Email
    ensures forall m :: m in UsernameMessages(form, config, regex) ==> m.field == Username
    ensures forall m :: m in EmailMessages(form, realm, store, isEmailValid) + UsernameMessages(form, config, regex)
                        ==> m.field == Email || m.field == Username
  {
  }

  /** Messages on field `f` are found only in the part after a prefix that holds none. */
  lemma OffField(front: seq<FormMessage>, back: seq<FormMessage>, f: Field)
    requires forall m :: m in front ==> m.field != f
    ensures forall m: FormMessage :: m.field == f ==> (m in front + back <==> m in back)
  {
  }

  /**
   * The username block of `validate`: a blank username adds the missing
   * message; otherwise the denylist is read (a null dereference when it is
   * not configured), looked up, and the pattern is compiled and matched.
   * `rejected` says whether a check that sets `INVALID_USER_CREDENTIALS` failed.
   */
  method ValidateUsername(form: Form, config: map<string, string>, regex: Regex)
    returns (fault: Option<Fault>, added: seq<FormMessage>, rejected: bool)
    ensures fault == UsernameFault(form, config, regex)
    ensures fault.None? ==> added == UsernameMessages(form, config, regex)
    ensures fault.None? ==> rejected == UsernameRejected(form, config, regex)
  {
    added, rejected := [], false;
    var username := GetFirst(form, FIELD_USERNAME);
    if IsBlank(username) {
      return None, [FormMessage(Username, MissingUsername)], false;
    }
    var name := username.value;
    var usernameRegex := MapGet(config, USERNAME_REGEX);
    var invalidUsernameString := MapGet(config, INVALID_USERNAMES);
    if invalidUsernameString.None? {
      return Some(NullPointer), [], false;
    }
    var invalidUsernames := Split(Lower(invalidUsernameString.value), ',');
    if Lower(name) in invalidUsernames {
      rejected := true;
      added := added + [FormMessage(Username, UsernameNotAvailable)];
    }
    if usernameRegex.None? {
      return Some(NullPointer), [], false;
    }
    if !regex.compiles(usernameRegex.value) {
      return Some(PatternSyntax), [], false;
    }
    if !regex.fullMatch(usernameRegex.value, name) {
      rejected := true;
      added := added + [FormMessage(Username, InvalidUsernameCharacters)];
    }
    fault := None;
  }

  /**
   * `validate`: runs every check, adding messages to one list and overwriting
   * the event error on the taken e-mail and on each failing username check,
   * then decides once.
   */
  method Validate(form: Form, config: map<string, string>, regex: Regex, realm: Realm, store: UserStore, isEmailValid: EmailSyntax)
    returns (verdict: Verdict)
    ensures verdict == Outcome(form, config, regex, realm, store, isEmailValid)
  {
    var errors: seq<FormMessage> := [];
    var eventError := InvalidRegistration;

    if IsBlank(GetFirst(form, FIELD_FIRST_NAME)) {
      errors := errors + [FormMessage(FirstName, MissingFirstName)];
    }
    if IsBlank(GetFirst(form, FIELD_LAST_NAME)) {
      errors := errors + [FormMessage(LastName, MissingLastName)];
    }
    ghost var named := errors;
    assert named == NameMessages(form);

    var email := GetFirst(form, FIELD_EMAIL);
    var emailValid := true;
    if IsBlank(email) {
      errors := errors + [FormMessage(Email, MissingEmail)];
      emailValid := false;
    } else if !isEmailValid(email.value) {
      errors := errors + [FormMessage(Email, InvalidEmail)];
      emailValid := false;
    }
    assert emailValid == EmailValid(form, isEmailValid);
    ghost var checked := errors;
    if emailValid && !realm.duplicateEmailsAllowed && store.byEmail(email.value).Some? {
      eventError := EmailInUse;
      errors := errors + [FormMessage(Email, EmailExists)];
    }
    ghost var profile := errors;
    assert profile == checked + if EmailTaken(form, realm, store, isEmailValid) then [FormMessage(Email, EmailExists)] else [];
    assert profile == named + EmailMessages(form, realm, store, isEmailValid);
    assert eventError == if EmailTaken(form, realm, store, isEmailValid) then EmailInUse else InvalidRegistration;

    var fault, added, rejected := ValidateUsername(form, config, regex);
    if fault.Some? {
      return Thrown(fault.value);
    }
    errors := errors + added;
    if rejected {
      eventError := InvalidUserCredentials;
    }
    assert errors == profile + UsernameMessages(form, config, regex);
    assert eventError == ReportedCode(form, config, regex, realm, store, isEmailValid);
    ProfileOutcome(form, config, regex, realm, store, isEmailValid);

    if |errors| > 0 {
      verdict := Rejected(eventError, errors);
    } else {
      verdict := Accepted;
    }
  }

  /**
   * `success`: the created user's first name, last name, e-mail and username
   * become the first submitted value of the matching field (`null` when absent).
   */
  method Success(form: Form, user: UserModel)
    modifies user`firstName, user`lastName, user`email, user`username
    ensures user.firstName == GetFirst(form, FIELD_FIRST_NAME)
    ensures user.lastName == GetFirst(form, FIELD_LAST_NAME)
    ensures user.email == GetFirst(form, FIELD_EMAIL)
    ensures user.username == GetFirst(form, FIELD_USERNAME)
    ensures user.enabled == old(user.enabled)
  {
    user.firstName := GetFirst(form, FIELD_FIRST_NAME);
    user.lastName := GetFirst(form, FIELD_LAST_NAME);
    user.email := GetFirst(form, FIELD_EMAIL);
    user.username := GetFirst(form, FIELD_USERNAME);
  }

  /**
   * A non-blank username makes `validate` read the configuration, and a
   * missing denylist, a missing pattern or a pattern that does not compile
   * ends it with an exception instead of a validation error.
   */
  lemma FaultCases(form: Form, config: map<string, string>, regex: Regex, realm: Realm, store: UserStore, isEmailValid: EmailSyntax)
    ensures var v := Outcome(form, config, regex, realm, store, isEmailValid);
            var username := GetFirst(form, FIELD_USERNAME);
            && (!IsBlank(username) && INVALID_USERNAMES !in config ==> v == Thrown(NullPointer))
            && (!IsBlank(username) && USERNAME_REGEX !in config ==> v == Thrown(NullPointer))
            && (v.Thrown? <==> !IsBlank(username) && !UsernameEvaluated(form, config, regex))
  {
  }

  /**
   * The name messages come first, first name before last name, and every
   * later message is on the e-mail or the username field.
   */
  lemma NamesComeFirst(form: Form, config: map<string, string>, regex: Regex, realm: Realm, store: UserStore, isEmailValid: EmailSyntax)
    requires UsernameFault(form, config, regex).None?
    ensures var errors := ProfileErrors(form, config, regex, realm, store, isEmailValid);
            var names := NameMessages(form);
            && names <= errors
            && (forall k :: |names| <= k < |errors| ==> errors[k].field == Email || errors[k].field == Username)
  {
    var names := NameMessages(form);
    var rest := EmailMessages(form, realm, store, isEmailValid) + UsernameMessages(form, config, regex);
    PrefixThenRest(names, rest);
    MessageFields(form, config, regex, realm, store, isEmailValid);
  }

  /** The missing first-name and last-name messages are shown exactly when those fields are blank. */
  lemma NameMessagesIff(form: Form, config: map<string, string>, regex: Regex, realm: Realm, store: UserStore, isEmailValid: EmailSyntax)
    requires UsernameFault(form, config, regex).None?
    ensures var errors := ProfileErrors(form, config, regex, realm, store, isEmailValid);
            && (FormMessage(FirstName, MissingFirstName) in errors <==> IsBlank(GetFirst(form, FIELD_FIRST_NAME)))
            && (FormMessage(LastName, MissingLastName) in errors <==> IsBlank(GetFirst(form, FIELD_LAST_NAME)))
  {
    var names := NameMessages(form);
    var mail := EmailMessages(form, realm, store, isEmailValid);
    var user := UsernameMessages(form, config, regex);
    assert FormMessage(FirstName, MissingFirstName) !in mail && FormMessage(LastName, MissingLastName) !in mail;
    assert FormMessage(FirstName, MissingFirstName) !in user && FormMessage(LastName, MissingLastName) !in user;
    assert FormMessage(FirstName, MissingFirstName) in names <==> IsBlank(GetFirst(form, FIELD_FIRST_NAME));
    assert FormMessage(LastName, MissingLastName) in names <==> IsBlank(GetFirst(form, FIELD_LAST_NAME));
  }

  /** When only the middle part can hold a message on `f`, and holds at most one, no two messages are on `f`. */
  lemma OnlyOneOn(a: seq<FormMessage>, b: seq<FormMessage>, c: seq<FormMessage>, f: Field)
    requires forall m :: m in a ==> m.field != f
    requires forall m :: m in c ==> m.field != f
    requires |b| <= 1
    ensures var all := a + b + c;
            forall i, j :: 0 <= i < j < |all| ==> !(all[i].field == f && all[j].field == f)
  {
    var all := a + b + c;
    forall i, j | 0 <= i < j < |all| && all[i].field == f
      ensures all[j].field != f
    {
      if i >= |a| {
        assert i < |a| + |b|;
        assert j >= |a| + |b|;
        assert all[j] == c[j - |a| - |b|];
        assert all[j] in c;
      }
    }
  }

  /**
   * The e-mail gets at most one message: missing when blank, otherwise
   * invalid when the syntax check fails, otherwise taken when duplicates are
   * forbidden and the store finds a user with it.
   */
  lemma EmailAtMostOne(form: Form, config: map<string, string>, regex: Regex, realm: Realm, store: UserStore, isEmailValid: EmailSyntax)
    requires UsernameFault(form, config, regex).None?
    ensures var errors := ProfileErrors(form, config, regex, realm, store, isEmailValid);
            var email := GetFirst(form, FIELD_EMAIL);
            && (FormMessage(Email, MissingEmail) in errors <==> IsBlank(email))
            && (FormMessage(Email, InvalidEmail) in errors <==> !IsBlank(email) && !isEmailValid(email.value))
            && (FormMessage(Email, EmailExists) in errors
                <==> !IsBlank(email) && isEmailValid(email.value) && !realm.duplicateEmailsAllowed && store.byEmail(email.value).Some?)
            && (forall i, j :: 0 <= i < j < |errors| ==> !(errors[i].field == Email && errors[j].field == Email))
  {
    var names := NameMessages(form);
    var mail := EmailMessages(form, realm, store, isEmailValid);
    var user := UsernameMessages(form, config, regex);
    assert forall m :: m in names ==> m.field != Email;
    assert forall m :: m in user ==> m.field != Email;
    OnlyOneOn(names, mail, user, Email);
    assert forall m :: m in names + mail + user && m.field == Email ==> m in mail;
  }

  /**
   * Last failure wins: a failed denylist or pattern check reports
   * `INVALID_USER_CREDENTIALS` even when the e-mail is taken; a taken e-mail
   * alone reports `EMAIL_IN_USE`; any other rejection `INVALID_REGISTRATION`.
   */
  lemma EventErrorLastWins(form: Form, config: map<string, string>, regex: Regex, realm: Realm, store: UserStore, isEmailValid: EmailSyntax)
    requires UsernameFault(form, config, regex).None?
    ensures var v := Outcome(form, config, regex, realm, store, isEmailValid);
            var username := GetFirst(form, FIELD_USERNAME);
            var userFailed := !IsBlank(username)
                              && (Denylisted(config, username.value) || !regex.fullMatch(config[USERNAME_REGEX], username.value));
            var taken := EmailTaken(form, realm, store, isEmailValid);
            && (userFailed ==> v.Rejected? && v.eventError == InvalidUserCredentials)
            && (!userFailed && taken ==> v.Rejected? && v.eventError == EmailInUse)
            && (!userFailed && !taken && v.Rejected? ==> v.eventError == InvalidRegistration)
  {
    ProfileOutcome(form, config, regex, realm, store, isEmailValid);
    var username := GetFirst(form, FIELD_USERNAME);
    if !IsBlank(username) && Denylisted(config, username.value) {
      assert FormMessage(Username, UsernameNotAvailable) in UsernameMessages(form, config, regex);
    }
    if !IsBlank(username) && !regex.fullMatch(config[USERNAME_REGEX], username.value) {
      assert FormMessage(Username, InvalidUsernameCharacters) in UsernameMessages(form, config, regex);
    }
  }

  /**
   * No early return: every failing check, in every block, contributes its
   * message, and the form is accepted exactly when no check failed.
   */
  lemma AllChecksReported(form: Form, config: map<string, string>, regex: Regex, realm: Realm, store: UserStore, isEmailValid: EmailSyntax)
    requires UsernameFault(form, config, regex).None?
    ensures var checks := AllChecks(form, config, regex, realm, store, isEmailValid);
            var v := Outcome(form, config, regex, realm, store, isEmailValid);
            && (forall k :: 0 <= k < |checks| && checks[k].failed ==> checks[k].message in ErrorsOf(v))
            && (v == Accepted <==> forall k :: 0 <= k < |checks| ==> !checks[k].failed)
  {
    var checks := AllChecks(form, config, regex, realm, store, isEmailValid);
    MessagesAreFailures(checks);
    NoMessagesIff(checks);
  }

  /** A blank username adds the missing message last, and no other message on the username field. */
  lemma BlankUsernameOnlyMissing(form: Form, config: map<string, string>, regex: Regex, realm: Realm, store: UserStore, isEmailValid: EmailSyntax)
    requires IsBlank(GetFirst(form, FIELD_USERNAME))
    ensures var errors := ProfileErrors(form, config, regex, realm, store, isEmailValid);
            && errors[|errors| - 1] == FormMessage(Username, MissingUsername)
            && forall m :: m in errors && m.field == Username ==> m == FormMessage(Username, MissingUsername)
  {
    var front := NameMessages(form) + EmailMessages(form, realm, store, isEmailValid);
    var user := UsernameMessages(form, config, regex);
    var errors := front + user;
    MessageFields(form, config, regex, realm, store, isEmailValid);
    assert forall m :: m in front ==> m.field != Username;
    OffField(front, user, Username);
    assert user == [FormMessage(Username, MissingUsername)];
    assert errors[|errors| - 1] == user[0];
  }

  /**
   * For a non-blank username the unavailable message (exactly when the
   * username is denylisted) precedes the invalid-characters message (exactly
   * when the pattern does not match), and the missing message is absent.
   */
  lemma UsernameMessagesOrdered(form: Form, config: map<string, string>, regex: Regex, realm: Realm, store: UserStore, isEmailValid: EmailSyntax)
    requires UsernameEvaluated(form, config, regex)
    ensures var errors := ProfileErrors(form, config, regex, realm, store, isEmailValid);
            var name := GetFirst(form, FIELD_USERNAME).value;
            && (FormMessage(Username, UsernameNotAvailable) in errors <==> Denylisted(config, name))
            && (FormMessage(Username, InvalidUsernameCharacters) in errors <==> !regex.fullMatch(config[USERNAME_REGEX], name))
            && FormMessage(Username, MissingUsername) !in errors
            && (Denylisted(config, name) && !regex.fullMatch(config[USERNAME_REGEX], name) ==>
                  errors[|errors| - 2] == FormMessage(Username, UsernameNotAvailable)
                  && errors[|errors| - 1] == FormMessage(Username, InvalidUsernameCharacters))
  {
    var front := NameMessages(form) + EmailMessages(form, realm, store, isEmailValid);
    var user := UsernameMessages(form, config, regex);
    var errors := front + user;
    MessageFields(form, config, regex, realm, store, isEmailValid);
    assert forall m :: m in front ==> m.field != Username;
    OffField(front, user, Username);
    var name := GetFirst(form, FIELD_USERNAME).value;
    if Denylisted(config, name) && !regex.fullMatch(config[USERNAME_REGEX], name) {
      assert user == [FormMessage(Username, UsernameNotAvailable), FormMessage(Username, InvalidUsernameCharacters)];
      assert errors[|errors| - 2] == user[0] && errors[|errors| - 1] == user[1];
    }
  }
}
