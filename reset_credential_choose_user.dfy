/**
 * `ResetCredentialChooseUserRelexedHook`, the first step of Keycloak's
 * "forgot password" flow. `authenticate` skips the screen when the
 * authentication session already names the user (after a first broker login,
 * or through an action token) and otherwise shows the password-reset form.
 * `action` resolves the submitted name (by username, then by e-mail), records
 * the attempt, consults the optional hook for unknown users, and either lets
 * the flow continue or shows an error, depending on the disclosure setting.
 */
module ResetCredentialChooseUser {
  import opened Java
  import opened Keycloak

  /** Configuration keys of the authenticator. */
  const ENABLE_INVALID_PROMPT := "resetcred.choose.prompt"
  const HOOK_URL := "resetcred.choose.hook-url"

  /**
   * The authentication-session notes the authenticator reads or writes:
   * `EXISTING_USER_INFO` (first broker login), `ACTION_TOKEN_USER_ID` and
   * `ATTEMPTED_USERNAME`.
   */
  datatype NoteKey = ExistingUserInfo | ActionTokenUserId | AttemptedUsername

  /**
   * The error keys the password-reset page can show: Keycloak's
   * `MISSING_USERNAME`, `INVALID_USER` and `ACCOUNT_DISABLED`, and the
   * extension's `RESET_PASSWORD_PREVENTED_EXTERNAL`.
   */
  datatype ResetMessage = MissingUsername | InvalidUser | AccountDisabled | ResetPasswordPreventedExternal

  /** The `Errors.*` codes reported on the event builder. */
  datatype EventCode = UsernameMissing | UserNotFound | UserDisabled

  /** One reported event: its code, the `username` detail and the user it names, when they are set. */
  datatype Event = Event(code: EventCode, username: Option<string>, user: Option<StoredUser>)

  /**
   * Where the flow stands: nothing decided yet; `success()`; the
   * password-reset form as a challenge; `failureChallenge(INVALID_USER, ...)`
   * showing a message; `forceChallenge(...)` showing a message; or an
   * exception out of the authenticator.
   */
  datatype Status =
    | Pending
    | Succeeded
    | Challenged
    | FailureChallenged(message: ResetMessage)
    | ForceChallenged(message: ResetMessage)
    | Thrown

  /** A snapshot of everything the authenticator can change in its flow context. */
  datatype FlowState = FlowState(
    user: Option<StoredUser>,
    notes: map<NoteKey, string>,
    events: seq<Event>,
    hookCalls: seq<HookRequest>,
    status: Status)

  /**
   * `AbstractIdpAuthenticator.getExistingUser`: the user the broker note
   * designates, or `None` when Keycloak throws instead (unknown or disabled).
   */
  type BrokerLookup = string -> Option<StoredUser>

  // ---------------------------------------------------------------------
  // authenticate

  /**
   * What `authenticate` does to a flow state: the broker note, then the
   * action-token note, each setting the user it designates and succeeding,
   * and otherwise the password-reset form. A user the action-token note does
   * not resolve is dereferenced anyway, which throws.
   */
  function Authenticated(s: FlowState, broker: BrokerLookup, store: UserStore): FlowState
  {
    if ExistingUserInfo in s.notes then
      var found := broker(s.notes[ExistingUserInfo]);
      if found.None? then s.(status := Thrown) else s.(user := found, status := Succeeded)
    else if ActionTokenUserId in s.notes then
      var found := store.byId(s.notes[ActionTokenUserId]);
      if found.None? then s.(status := Thrown) else s.(user := found, status := Succeeded)
    else s.(status := Challenged)
  }

  /** The broker note takes precedence: with it present, the action-token note plays no part. */
  lemma BrokerNoteFirst(s: FlowState, broker: BrokerLookup, store: UserStore)
    requires ExistingUserInfo in s.notes
    ensures var t := s.(notes := s.notes - {ActionTokenUserId});
            Authenticated(s, broker, store).(notes := t.notes) == Authenticated(t, broker, store)
    ensures Authenticated(s, broker, store).status in {Succeeded, Thrown}
  {
  }

  /**
   * Either note skips the form: the flow succeeds with the designated user
   * (or throws); with neither note the form is shown and the user is kept.
   * Only the user and the status ever change.
   */
  lemma AuthenticateOutcomes(s: FlowState, broker: BrokerLookup, store: UserStore)
    ensures var r := Authenticated(s, broker, store);
            && r.notes == s.notes && r.events == s.events && r.hookCalls == s.hookCalls
            && (r.status == Challenged <==> ExistingUserInfo !in s.notes && ActionTokenUserId !in s.notes)
            && (r.status == Challenged ==> r.user == s.user)
            && (r.status == Succeeded ==>
                  r.user.Some?
                  && r.user == if ExistingUserInfo in s.notes then broker(s.notes[ExistingUserInfo])
                               else store.byId(s.notes[ActionTokenUserId]))
  {
  }

  // ---------------------------------------------------------------------
  // action

  /**
   * The user a trimmed name resolves to: by username, and only when that
   * finds nobody, e-mail login is allowed and the name contains '@', by e-mail.
   */
  function Lookup(name: string, realm: Realm, store: UserStore): (r: Option<StoredUser>)
    ensures store.byUsername(name).Some? ==> r == store.byUsername(name)
    ensures r != store.byUsername(name) ==>
              realm.loginWithEmailAllowed && '@' in name && r == store.byEmail(name)
    ensures r.None? <==> store.byUsername(name).None?
                         && (!realm.loginWithEmailAllowed || '@' !in name || store.byEmail(name).None?)
  {
    var byName := store.byUsername(name);
    if byName.None? && realm.loginWithEmailAllowed && '@' in name then store.byEmail(name) else byName
  }

  /** The submitted username is `null` or the empty string (checked before trimming). */
  predicate Missing(form: Form)
  {
    var submitted := GetFirst(form, FIELD_USERNAME);
    submitted.None? || submitted.value == ""
  }

  /** The disclosure setting is the string "true" exactly. */
  predicate Prompting(config: map<string, string>)
  {
    MapGet(config, ENABLE_INVALID_PROMPT) == Some("true")
  }

  /** The hook request for an unknown user, if a hook URL is configured. */
  function NotFoundHook(config: map<string, string>, name: string): Option<HookRequest>
  {
    HookRequestFor(MapGet(config, HOOK_URL), name)
  }

  /**
   * The error `action` shows for the user the name resolved to: for an
   * unknown user, the hook's veto first, then `INVALID_USER` when prompting;
   * for a disabled user `ACCOUNT_DISABLED` when prompting; none otherwise.
   */
  function ResetError(found: Option<StoredUser>, prompt: bool, vetoed: bool): (r: Option<ResetMessage>)
    ensures found.Some? && found.value.enabled ==> r.None?
    ensures found.None? && vetoed ==> r == Some(ResetPasswordPreventedExternal)
    ensures r.Some? && r.value == InvalidUser <==> found.None? && !vetoed && prompt
    ensures r.Some? && r.value == AccountDisabled <==> found.Some? && !found.value.enabled && prompt
    ensures r == Some(ResetPasswordPreventedExternal) <==> found.None? && vetoed
    ensures r.None? <==> (found.Some? && (found.value.enabled || !prompt)) || (found.None? && !vetoed && !prompt)
  {
    if found.None? then
      if vetoed then Some(ResetPasswordPreventedExternal) else if prompt then Some(InvalidUser) else None
    else if !found.value.enabled then
      if prompt then Some(AccountDisabled) else None
    else None
  }

  /** What `action` does to a flow state. */
  function Acted(s: FlowState, form: Form, config: map<string, string>, realm: Realm, store: UserStore,
                 hook: HookRequest -> HookReply): FlowState
  {
    if Missing(form) then
      s.(events := s.events + [Event(UsernameMissing, None, None)], status := FailureChallenged(MissingUsername))
    else
      var name := Trim(GetFirst(form, FIELD_USERNAME).value);
      var found := Lookup(name, realm, store);
      var request := if found.None? then NotFoundHook(config, name) else None;
      var error := ResetError(found, Prompting(config), Vetoed(request, hook));
      FlowState(
        if found.Some? && found.value.enabled then found else None,
        s.notes[AttemptedUsername := name],
        s.events + (if found.None? then [Event(UserNotFound, Some(name), None)]
                    else if !found.value.enabled then [Event(UserDisabled, Some(name), found)]
                    else []),
        s.hookCalls + (if request.Some? then [request.value] else []),
        if error.Some? then ForceChallenged(error.value) else Succeeded)
  }

  /**
   * A `null` or empty username reports `USERNAME_MISSING` and shows the
   * missing-username message as a failure challenge; nothing is looked up,
   * no note is written, the hook is not called and the user is kept.
   */
  lemma MissingUsernameRejected(s: FlowState, form: Form, config: map<string, string>, realm: Realm, store: UserStore,
                                hook: HookRequest -> HookReply)
    requires Missing(form)
    ensures var r := Acted(s, form, config, realm, store, hook);
            r == s.(events := s.events + [Event(UsernameMissing, None, None)], status := FailureChallenged(MissingUsername))
  {
  }

  /**
   * A username made only of whitespace is not missing: it is trimmed to the
   * empty string, recorded as the attempt, and resolved like any other name.
   */
  lemma WhitespaceIsNotMissing(s: FlowState, form: Form, config: map<string, string>, realm: Realm, store: UserStore,
                               hook: HookRequest -> HookReply)
    requires FIELD_USERNAME in form && form[FIELD_USERNAME] != [] && form[FIELD_USERNAME][0] != ""
    requires forall k :: 0 <= k < |form[FIELD_USERNAME][0]| ==> IsTrimmable(form[FIELD_USERNAME][0][k])
    ensures var r := Acted(s, form, config, realm, store, hook);
            && !r.status.FailureChallenged?
            && r.notes == s.notes[AttemptedUsername := ""]
  {
    TrimEmptyIff(form[FIELD_USERNAME][0]);
  }

  /** Every non-missing submission records the trimmed name as the attempted username, and no other note changes. */
  lemma AttemptRecorded(s: FlowState, form: Form, config: map<string, string>, realm: Realm, store: UserStore,
                        hook: HookRequest -> HookReply)
    requires !Missing(form)
    ensures var r := Acted(s, form, config, realm, store, hook);
            && r.notes == s.notes[AttemptedUsername := Trim(GetFirst(form, FIELD_USERNAME).value)]
            && r.status in {Succeeded, ForceChallenged(InvalidUser), ForceChallenged(AccountDisabled),
                            ForceChallenged(ResetPasswordPreventedExternal)}
  {
  }

  /**
   * Only the trimmed value matters: submitting the trimmed name instead
   * leads to the same state, whenever the trimmed name is not empty.
   */
  lemma OnlyTrimmedNameMatters(s: FlowState, form: Form, config: map<string, string>, realm: Realm, store: UserStore,
                               hook: HookRequest -> HookReply)
    requires !Missing(form)
    requires Trim(GetFirst(form, FIELD_USERNAME).value) != ""
    ensures var trimmed := form[FIELD_USERNAME := [Trim(GetFirst(form, FIELD_USERNAME).value)]];
            Acted(s, trimmed, config, realm, store, hook) == Acted(s, form, config, realm, store, hook)
  {
    var name := Trim(GetFirst(form, FIELD_USERNAME).value);
    var trimmed := form[FIELD_USERNAME := [name]];
    assert GetFirst(trimmed, FIELD_USERNAME) == Some(name);
    TrimIdempotent(GetFirst(form, FIELD_USERNAME).value);
  }

  /**
   * An unknown user: the user is cleared and `USER_NOT_FOUND` reported with
   * the name; a "yes" from the hook shows the externally-prevented message
   * whatever the disclosure setting; otherwise `INVALID_USER` is shown exactly
   * when prompting, and the flow succeeds silently when not.
   */
  lemma UnknownUser(s: FlowState, form: Form, config: map<string, string>, realm: Realm, store: UserStore,
                    hook: HookRequest -> HookReply)
    requires !Missing(form)
    requires Lookup(Trim(GetFirst(form, FIELD_USERNAME).value), realm, store).None?
    ensures var name := Trim(GetFirst(form, FIELD_USERNAME).value);
            var r := Acted(s, form, config, realm, store, hook);
            var vetoed := Vetoed(NotFoundHook(config, name), hook);
            && r.user.None?
            && r.events == s.events + [Event(UserNotFound, Some(name), None)]
            && (vetoed ==> r.status == ForceChallenged(ResetPasswordPreventedExternal))
            && (!vetoed ==> (r.status == ForceChallenged(InvalidUser) <==> Prompting(config)))
            && (!vetoed && !Prompting(config) ==> r.status == Succeeded)
  {
  }

  /**
   * The hook is called only for an unknown user and a non-null, non-empty
   * hook URL, once, with that URL and the trimmed name.
   */
  lemma HookOnlyForUnknownUsers(s: FlowState, form: Form, config: map<string, string>, realm: Realm, store: UserStore,
                                hook: HookRequest -> HookReply)
    ensures var r := Acted(s, form, config, realm, store, hook);
            && (r.hookCalls != s.hookCalls <==>
                  !Missing(form) && Lookup(Trim(GetFirst(form, FIELD_USERNAME).value), realm, store).None?
                  && HOOK_URL in config && config[HOOK_URL] != "")
            && (r.hookCalls != s.hookCalls ==>
                  r.hookCalls == s.hookCalls + [HookRequest(config[HOOK_URL], Trim(GetFirst(form, FIELD_USERNAME).value))])
  {
    var r := Acted(s, form, config, realm, store, hook);
    if !Missing(form) {
      var name := Trim(GetFirst(form, FIELD_USERNAME).value);
      if Lookup(name, realm, store).None? && NotFoundHook(config, name).Some? {
        assert |r.hookCalls| == |s.hookCalls| + 1;
      }
    }
  }

  /**
   * A disabled user: the user is cleared, `USER_DISABLED` reported, the hook
   * is not called, and `ACCOUNT_DISABLED` is shown exactly when prompting.
   */
  lemma DisabledUser(s: FlowState, form: Form, config: map<string, string>, realm: Realm, store: UserStore,
                     hook: HookRequest -> HookReply)
    requires !Missing(form)
    requires var found := Lookup(Trim(GetFirst(form, FIELD_USERNAME).value), realm, store);
             found.Some? && !found.value.enabled
    ensures var r := Acted(s, form, config, realm, store, hook);
            && r.user.None?
            && r.hookCalls == s.hookCalls
            && (r.status == ForceChallenged(AccountDisabled) <==> Prompting(config))
            && (!Prompting(config) ==> r.status == Succeeded)
  {
  }

  /** A found, enabled user becomes the flow's user, and the flow succeeds without an event or a hook call. */
  lemma EnabledUser(s: FlowState, form: Form, config: map<string, string>, realm: Realm, store: UserStore,
                    hook: HookRequest -> HookReply)
    requires !Missing(form)
    requires var found := Lookup(Trim(GetFirst(form, FIELD_USERNAME).value), realm, store);
             found.Some? && found.value.enabled
    ensures var r := Acted(s, form, config, realm, store, hook);
            && r.user == Lookup(Trim(GetFirst(form, FIELD_USERNAME).value), realm, store)
            && r.status == Succeeded && r.events == s.events && r.hookCalls == s.hookCalls
  {
  }

  /**
   * An error always forces the challenge and never succeeds; without an
   * error the flow succeeds, and then it has a user exactly when the name
   * resolved to an enabled one (the silent unknown and disabled cases
   * succeed with the user cleared).
   */
  lemma ChallengeOrSuccess(s: FlowState, form: Form, config: map<string, string>, realm: Realm, store: UserStore,
                           hook: HookRequest -> HookReply)
    requires !Missing(form)
    ensures var name := Trim(GetFirst(form, FIELD_USERNAME).value);
            var found := Lookup(name, realm, store);
            var r := Acted(s, form, config, realm, store, hook);
            && (r.status.ForceChallenged? || r.status == Succeeded)
            && (r.status.ForceChallenged? ==> r.user.None?)
            && (r.status == Succeeded ==> (r.user.Some? <==> found.Some? && found.value.enabled))
  {
  }

  // ---------------------------------------------------------------------
  // The flow context

  /** The parts of `AuthenticationFlowContext` and its authentication session the authenticator changes. */
  class FlowContext {
    var user: Option<StoredUser>
    var notes: map<NoteKey, string>
    var events: seq<Event>
    var hookCalls: seq<HookRequest>
    var status: Status

    /** The current state as a value. */
    function State(): FlowState
      reads this
    {
      FlowState(user, notes, events, hookCalls, status)
    }

    /** A fresh context: no user, the given session notes, nothing reported and nothing decided. */
    constructor (initialNotes: map<NoteKey, string>)
      ensures State() == FlowState(None, initialNotes, [], [], Pending)
    {
      user := None;
      notes := initialNotes;
      events := [];
      hookCalls := [];
      status := Pending;
    }

    /** `authenticate`. */
    method Authenticate(broker: BrokerLookup, store: UserStore)
      modifies this
      ensures State() == Authenticated(old(State()), broker, store)
    {
      var existingUserId := MapGet(notes, ExistingUserInfo);
      if existingUserId.Some? {
        var existingUser := broker(existingUserId.value);
        if existingUser.None? {
          status := Thrown;
          return;
        }
        user := existingUser;
        status := Succeeded;
        return;
      }
      var actionTokenUserId := MapGet(notes, ActionTokenUserId);
      if actionTokenUserId.Some? {
        var existingUser := store.byId(actionTokenUserId.value);
        if existingUser.None? {
          status := Thrown;
          return;
        }
        user := existingUser;
        status := Succeeded;
        return;
      }
      status := Challenged;
    }

    /** `action`. */
    method Action(form: Form, config: map<string, string>, realm: Realm, store: UserStore, hook: HookRequest -> HookReply)
      modifies this
      ensures State() == Acted(old(State()), form, config, realm, store, hook)
    {
      var eventError: Option<ResetMessage> := None;
      var username := GetFirst(form, FIELD_USERNAME);
      if username.None? || username.value == "" {
        events := events + [Event(UsernameMissing, None, None)];
        status := FailureChallenged(MissingUsername);
        return;
      }

      var name := Trim(username.value);

      var found := store.byUsername(name);
      if found.None? && realm.loginWithEmailAllowed && '@' in name {
        found := store.byEmail(name);
      }
      assert found == Lookup(name, realm, store);
      ghost var request := if found.None? then NotFoundHook(config, name) else None;

      notes := notes[AttemptedUsername := name];

      var enablePrompt := MapGet(config, ENABLE_INVALID_PROMPT);

      if found.None? {
        events := events + [Event(UserNotFound, Some(name), None)];
        var baseUrl := MapGet(config, HOOK_URL);
        if baseUrl.Some? && baseUrl.value != "" {
          var call := HookRequest(baseUrl.value, name);
          hookCalls := hookCalls + [call];
          var resp := hook(call);
          if resp == Body("yes") {
            eventError := Some(ResetPasswordPreventedExternal);
          }
        }
        user := None;
        if enablePrompt == Some("true") && eventError.None? {
          eventError := Some(InvalidUser);
        }
      } else if !found.value.enabled {
        events := events + [Event(UserDisabled, Some(name), found)];
        user := None;
        if enablePrompt == Some("true") {
          eventError := Some(AccountDisabled);
        }
      } else {
        user := found;
      }

      assert eventError == ResetError(found, Prompting(config), Vetoed(request, hook));
      assert hookCalls == old(hookCalls) + (if request.Some? then [request.value] else []);
      assert events == old(events) + (if found.None? then [Event(UserNotFound, Some(name), None)]
                                      else if !found.value.enabled then [Event(UserDisabled, Some(name), found)]
                                      else []);
      assert user == if found.Some? && found.value.enabled then found else None;
      assert notes == old(notes)[AttemptedUsername := name];
      if eventError.Some? {
        status := ForceChallenged(eventError.value);
        return;
      }
      status := Succeeded;
    }
  }
}
