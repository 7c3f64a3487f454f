/**
 * `RegistrationUsername.validate`, the registration form action that checks
 * the submitted username: a blank check, then (for a non-blank username) the
 * optional denylist, the full-match pattern and the optional external hook.
 * Every failure adds a message on the username field; each failing username
 * check reports `INVALID_USER_CREDENTIALS`.
 */
module RegistrationUsername {
  import opened Java
  import opened Keycloak
  import opened FormValidation

  /** Configuration keys of the form action. */
  const USERNAME_REGEX := "profile.username.regex"
  const INVALID_USERNAMES := "profile.username.invalid"
  const HOOK_URL := "profile.username.hook-url"

  /**
   * The denylist is configured and names `username`: the lower-cased username
   * is one of the pieces of the lower-cased list split at commas (no trimming).
   */
  predicate Reserved(config: map<string, string>, username: string)
  {
    INVALID_USERNAMES in config && Lower(username) in Split(Lower(config[INVALID_USERNAMES]), ',')
  }

  /** The username is present and non-blank and the configured pattern compiles, so every check runs. */
  predicate Evaluated(form: Form, config: map<string, string>, regex: Regex)
  {
    var username := GetFirst(form, FIELD_USERNAME);
    !IsBlank(username) && USERNAME_REGEX in config && regex.compiles(config[USERNAME_REGEX])
  }

  /** The hook request `validate` sends, if any. */
  function HookCall(form: Form, config: map<string, string>, regex: Regex): Option<HookRequest>
  {
    if Evaluated(form, config, regex)
    then HookRequestFor(MapGet(config, HOOK_URL), GetFirst(form, FIELD_USERNAME).value)
    else None
  }

  /** The checks run on a username that is neither blank nor paired with a broken pattern, in order. */
  function UsernameChecks(form: Form, config: map<string, string>, regex: Regex, hook: HookRequest -> HookReply): seq<Check>
    requires Evaluated(form, config, regex)
  {
    var name := GetFirst(form, FIELD_USERNAME).value;
    [ Check(Reserved(config, name), FormMessage(Username, UsernameNotAvailable), Some(InvalidUserCredentials)),
      Check(!regex.fullMatch(config[USERNAME_REGEX], name), FormMessage(Username, InvalidUsernameCharacters), Some(InvalidUserCredentials)),
      Check(Vetoed(HookCall(form, config, regex), hook), FormMessage(Username, RegistrationPreventedExternal), Some(InvalidUserCredentials)) ]
  }

  /** The verdict `validate` reaches. */
  function Outcome(form: Form, config: map<string, string>, regex: Regex, hook: HookRequest -> HookReply): Verdict
  {
    var username := GetFirst(form, FIELD_USERNAME);
    if IsBlank(username) then Decide([Check(true, FormMessage(Username, MissingUsername), None)], InvalidRegistration)
    else if USERNAME_REGEX !in config then Thrown(NullPointer)
    else if !regex.compiles(config[USERNAME_REGEX]) then Thrown(PatternSyntax)
    else Decide(UsernameChecks(form, config, regex, hook), InvalidRegistration)
  }

  /**
   * `validate`: collects the messages in a list and overwrites the event
   * error after each failing username check, then decides once.
   */
  method Validate(form: Form, config: map<string, string>, regex: Regex, hook: HookRequest -> HookReply)
    returns (verdict: Verdict, request: Option<HookRequest>)
    ensures verdict == Outcome(form, config, regex, hook)
    ensures request == HookCall(form, config, regex)
  {
    var errors: seq<FormMessage> := [];
    var eventError := InvalidRegistration;
    request := None;

    var username := GetFirst(form, FIELD_USERNAME);
    if IsBlank(username) {
      errors := errors + [FormMessage(Username, MissingUsername)];
      BlankUsername(form, config, regex, hook);
    } else {
      var name := username.value;
      var invalidUsernameString := MapGet(config, INVALID_USERNAMES);
      if invalidUsernameString.Some? {
        var invalidUsernames := Split(Lower(invalidUsernameString.value), ',');
        if Lower(name) in invalidUsernames {
          eventError := InvalidUserCredentials;
          errors := errors + [FormMessage(Username, UsernameNotAvailable)];
        }
      }
      ghost var listed := errors;
      assert listed == if Reserved(config, name) then [FormMessage(Username, UsernameNotAvailable)] else [];

      var usernameRegex := MapGet(config, USERNAME_REGEX);
      if usernameRegex.None? {
        return Thrown(NullPointer), None;
      }
      if !regex.compiles(usernameRegex.value) {
        return Thrown(PatternSyntax), None;
      }
      if !regex.fullMatch(usernameRegex.value, name) {
        eventError := InvalidUserCredentials;
        errors := errors + [FormMessage(Username, InvalidUsernameCharacters)];
      }
      ghost var matched := errors;
      assert matched == listed + if !regex.fullMatch(config[USERNAME_REGEX], name) then [FormMessage(Username, InvalidUsernameCharacters)] else [];

      var baseUrl := MapGet(config, HOOK_URL);
      if baseUrl.Some? && baseUrl.value != "" {
        request := Some(HookRequest(baseUrl.value, name));
        var resp := hook(request.value);
        if resp == Body("yes") {
          eventError := InvalidUserCredentials;
          errors := errors + [FormMessage(Username, RegistrationPreventedExternal)];
        }
      }
      assert request == HookCall(form, config, regex);
      assert errors == matched + if Vetoed(request, hook) then [FormMessage(Username, RegistrationPreventedExternal)] else [];
      assert errors != [] ==> eventError == InvalidUserCredentials;
      EvaluatedOutcome(form, config, regex, hook);
    }

    if |errors| > 0 {
      verdict := Rejected(eventError, errors);
    } else {
      verdict := Accepted;
    }
  }

  /** The messages of the three username checks, in order. */
  lemma UsernameMessages(form: Form, config: map<string, string>, regex: Regex, hook: HookRequest -> HookReply)
    requires Evaluated(form, config, regex)
    ensures var name := GetFirst(form, FIELD_USERNAME).value;
            Messages(UsernameChecks(form, config, regex, hook))
            == (if Reserved(config, name) then [FormMessage(Username, UsernameNotAvailable)] else [])
             + (if !regex.fullMatch(config[USERNAME_REGEX], name) then [FormMessage(Username, InvalidUsernameCharacters)] else [])
             + (if Vetoed(HookCall(form, config, regex), hook) then [FormMessage(Username, RegistrationPreventedExternal)] else [])
  {
    var cs := UsernameChecks(form, config, regex, hook);
    Three(cs[0], cs[1], cs[2], InvalidRegistration);
  }

  /**
   * For an evaluated username the verdict is a rejection with
   * `INVALID_USER_CREDENTIALS` and the messages of the failed checks, in
   * order, or success when no check failed.
   */
  lemma EvaluatedOutcome(form: Form, config: map<string, string>, regex: Regex, hook: HookRequest -> HookReply)
    requires Evaluated(form, config, regex)
    ensures var name := GetFirst(form, FIELD_USERNAME).value;
            var errors := (if Reserved(config, name) then [FormMessage(Username, UsernameNotAvailable)] else [])
                        + (if !regex.fullMatch(config[USERNAME_REGEX], name) then [FormMessage(Username, InvalidUsernameCharacters)] else [])
                        + (if Vetoed(HookCall(form, config, regex), hook) then [FormMessage(Username, RegistrationPreventedExternal)] else []);
            Outcome(form, config, regex, hook) == if errors == [] then Accepted else Rejected(InvalidUserCredentials, errors)
  {
    var cs := UsernameChecks(form, config, regex, hook);
    Three(cs[0], cs[1], cs[2], InvalidRegistration);
    assert cs == [cs[0], cs[1], cs[2]];
  }

  /**
   * A blank username yields exactly the missing-username message and keeps
   * `INVALID_REGISTRATION`; no denylist, pattern or hook step runs.
   */
  lemma BlankUsername(form: Form, config: map<string, string>, regex: Regex, hook: HookRequest -> HookReply)
    requires IsBlank(GetFirst(form, FIELD_USERNAME))
    ensures Outcome(form, config, regex, hook) == Rejected(InvalidRegistration, [FormMessage(Username, MissingUsername)])
    ensures HookCall(form, config, regex) == None
  {
    Step([], Check(true, FormMessage(Username, MissingUsername), None), InvalidRegistration);
  }

  /** Without a denylist key the username is never reported as unavailable. */
  lemma AbsentDenylistNeverReserves(form: Form, config: map<string, string>, regex: Regex, hook: HookRequest -> HookReply)
    requires INVALID_USERNAMES !in config
    ensures FormMessage(Username, UsernameNotAvailable) !in ErrorsOf(Outcome(form, config, regex, hook))
  {
    if Evaluated(form, config, regex) {
      UsernameMessages(form, config, regex, hook);
    } else if IsBlank(GetFirst(form, FIELD_USERNAME)) {
      BlankUsername(form, config, regex, hook);
    }
  }

  /**
   * The unavailable message is shown exactly when the denylist is configured
   * and the lower-cased username equals one of the comma-separated pieces of
   * the lower-cased list: dropping trailing empty pieces never matters.
   */
  lemma ReservedIffDenylisted(form: Form, config: map<string, string>, regex: Regex, hook: HookRequest -> HookReply)
    requires Evaluated(form, config, regex)
    ensures var name := GetFirst(form, FIELD_USERNAME).value;
            FormMessage(Username, UsernameNotAvailable) in ErrorsOf(Outcome(form, config, regex, hook))
            <==> INVALID_USERNAMES in config && Lower(name) in Segments(Lower(config[INVALID_USERNAMES]), ',')
  {
    var name := GetFirst(form, FIELD_USERNAME).value;
    assert name != [];
    if INVALID_USERNAMES in config {
      SplitMembership(Lower(config[INVALID_USERNAMES]), ',', Lower(name));
    }
    UsernameMessages(form, config, regex, hook);
  }

  /**
   * The invalid-characters message is shown exactly when the pattern does not
   * match the whole username, and it follows the unavailable message.
   */
  lemma PatternMismatchIff(form: Form, config: map<string, string>, regex: Regex, hook: HookRequest -> HookReply)
    requires Evaluated(form, config, regex)
    ensures var name := GetFirst(form, FIELD_USERNAME).value;
            var errors := ErrorsOf(Outcome(form, config, regex, hook));
            && (FormMessage(Username, InvalidUsernameCharacters) in errors <==> !regex.fullMatch(config[USERNAME_REGEX], name))
            && (Reserved(config, name) && !regex.fullMatch(config[USERNAME_REGEX], name) ==>
                  errors[0] == FormMessage(Username, UsernameNotAvailable) && errors[1] == FormMessage(Username, InvalidUsernameCharacters))
  {
    UsernameMessages(form, config, regex, hook);
  }

  /**
   * The hook is consulted only for an evaluated username and a non-null,
   * non-empty URL, with that URL and the username as submitted.
   */
  lemma HookConsultedOnlyWhenConfigured(form: Form, config: map<string, string>, regex: Regex)
    ensures HookCall(form, config, regex).Some? <==>
            Evaluated(form, config, regex) && HOOK_URL in config && config[HOOK_URL] != ""
    ensures HookCall(form, config, regex).Some? ==>
            HookCall(form, config, regex).value == HookRequest(config[HOOK_URL], GetFirst(form, FIELD_USERNAME).value)
  {
  }

  /** A "yes" from the hook appends the externally-prevented message as the last message. */
  lemma HookVetoIsLast(form: Form, config: map<string, string>, regex: Regex, hook: HookRequest -> HookReply)
    requires Evaluated(form, config, regex)
    requires Vetoed(HookCall(form, config, regex), hook)
    ensures var v := Outcome(form, config, regex, hook);
            v.Rejected? && v.eventError == InvalidUserCredentials
            && v.errors[|v.errors| - 1] == FormMessage(Username, RegistrationPreventedExternal)
  {
    UsernameMessages(form, config, regex, hook);
    var cs := UsernameChecks(form, config, regex, hook);
    RecordedIsLastOverride(cs, InvalidRegistration);
    assert Overrides(cs[2]);
  }

  /**
   * Fail-open: a hook body other than "yes", or a failed call, leaves the
   * verdict exactly as if no hook URL were configured.
   */
  lemma HookFailOpen(form: Form, config: map<string, string>, regex: Regex, hook: HookRequest -> HookReply)
    requires !Vetoed(HookCall(form, config, regex), hook)
    ensures Outcome(form, config, regex, hook) == Outcome(form, config - {HOOK_URL}, regex, hook)
  {
    var local := config - {HOOK_URL};
    assert USERNAME_REGEX in config <==> USERNAME_REGEX in local;
    assert INVALID_USERNAMES in config <==> INVALID_USERNAMES in local;
    if Evaluated(form, config, regex) {
      assert HookCall(form, local, regex) == None;
      assert UsernameChecks(form, config, regex, hook) == UsernameChecks(form, local, regex, hook);
    }
  }

  /**
   * Success exactly when every check passes; a rejection reports
   * `INVALID_USER_CREDENTIALS` exactly when a username check failed, and
   * `INVALID_REGISTRATION` (the blank case) otherwise.
   */
  lemma VerdictRule(form: Form, config: map<string, string>, regex: Regex, hook: HookRequest -> HookReply)
    ensures var name := GetFirst(form, FIELD_USERNAME);
            var v := Outcome(form, config, regex, hook);
            && (v == Accepted <==>
                  Evaluated(form, config, regex) && !Reserved(config, name.value)
                  && regex.fullMatch(config[USERNAME_REGEX], name.value) && !Vetoed(HookCall(form, config, regex), hook))
            && (v.Rejected? ==> (v.eventError == InvalidUserCredentials <==> !IsBlank(name)))
            && (v.Rejected? ==> (v.eventError == InvalidRegistration <==> IsBlank(name)))
  {
    if Evaluated(form, config, regex) {
      UsernameMessages(form, config, regex, hook);
      var cs := UsernameChecks(form, config, regex, hook);
      RecordedIsLastOverride(cs, InvalidRegistration);
      if Outcome(form, config, regex, hook).Rejected? {
        assert Overrides(cs[0]) || Overrides(cs[1]) || Overrides(cs[2]);
      }
    } else if IsBlank(GetFirst(form, FIELD_USERNAME)) {
      BlankUsername(form, config, regex, hook);
    }
  }

  /** A rejection shows between one and three messages, all on the username field. */
  lemma ErrorsBounded(form: Form, config: map<string, string>, regex: Regex, hook: HookRequest -> HookReply)
    ensures var v := Outcome(form, config, regex, hook);
            && (v.Rejected? ==> 1 <= |v.errors| <= 3)
            && (forall m :: m in ErrorsOf(v) ==> m.field == Username)
  {
    if Evaluated(form, config, regex) {
      UsernameMessages(form, config, regex, hook);
    } else if IsBlank(GetFirst(form, FIELD_USERNAME)) {
      BlankUsername(form, config, regex, hook);
    }
  }

  /** "Admin" lower-cases to "admin". */
  lemma LowerAdmin()
    ensures Lower("Admin") == "admin"
  {
    var r := Lower("Admin");
    assert r[0] == 'a' && r[1] == 'd' && r[2] == 'm' && r[3] == 'i' && r[4] == 'n';
  }

  /** The denylist "admin,root" splits into its two names. */
  lemma AdminRootPieces()
    ensures Split(Lower("admin,root"), ',') == ["admin", "root"]
  {
    var list := "admin,root";
    assert Lower(list) == list by {
      forall i | 0 <= i < |list| ensures !IsUpper(list[i]) { }
    }
    assert list == Join(["admin", "root"], ',');
    SegmentsJoin(["admin", "root"], ',');
    assert list[5] == ',';
  }

  /**
   * Denylist "admin,root" and candidate "Admin": the denylist matches
   * regardless of case; a lower-case-only pattern, applied to the username
   * as submitted, fails as well, so both messages are shown.
   */
  lemma AdminIsReserved(regex: Regex, hook: HookRequest -> HookReply)
    requires regex.compiles("^[a-z0-9_]{3,20}$") && !regex.fullMatch("^[a-z0-9_]{3,20}$", "Admin")
    ensures var config := map[USERNAME_REGEX := "^[a-z0-9_]{3,20}$", INVALID_USERNAMES := "admin,root"];
            Outcome(map[FIELD_USERNAME := ["Admin"]], config, regex, hook)
            == Rejected(InvalidUserCredentials, [FormMessage(Username, UsernameNotAvailable), FormMessage(Username, InvalidUsernameCharacters)])
  {
    var config := map[USERNAME_REGEX := "^[a-z0-9_]{3,20}$", INVALID_USERNAMES := "admin,root"];
    var form: Form := map[FIELD_USERNAME := ["Admin"]];
    assert GetFirst(form, FIELD_USERNAME) == Some("Admin");
    assert Evaluated(form, config, regex) by {
      assert !IsTrimmable("Admin"[0]);
    }
    assert Reserved(config, "Admin") by {
      LowerAdmin();
      AdminRootPieces();
    }
    assert HookCall(form, config, regex) == None by {
      assert HOOK_URL[17] != USERNAME_REGEX[17] && HOOK_URL[17] != INVALID_USERNAMES[17];
    }
    EvaluatedOutcome(form, config, regex, hook);
  }
}
