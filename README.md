# Keycloak username registration and reset-credential extensions, in Dafny

This project models the decision logic of three Keycloak extensions:

- `RegistrationUsername`, a registration form action. It checks the submitted username:
  - it must not be blank;
  - it must not be on an optional, comma-separated denylist, compared case-insensitively;
  - it must fully match a configured pattern;
  - an optional external HTTP hook may veto it.
- `RegistrationInvalidUsernameProfile`, a registration form action. It checks first name, last name, e-mail (missing, malformed, already in use) and username (missing, denylisted, not matching the pattern). Its `success` copies the four fields onto the new user.
- `ResetCredentialChooseUserRelexedHook`, the "choose user" step of the password-reset flow.
  - `authenticate` skips the screen when a session note already names the user.
  - `action` resolves the submitted name, by username and then by e-mail. It records the attempt and consults an optional hook for unknown users. Then it either lets the flow continue or shows an error, depending on a disclosure setting.

Each core class is one module, written in the form the Java takes:

- `RegistrationUsername.Validate` and `RegistrationInvalidUsernameProfile.Validate` are methods. They append to a message list and overwrite an event-error variable step by step, as the Java does.
  - Each is proved equal to a declarative specification, `Outcome`: the run of `Check`s of the form action, folded by `FormValidation.Decide`.
  - The properties the extension promises are proved as lemmas about `Outcome`. They cover order, "last failure wins", "no early return", the error paths and the hook.
- `RegistrationInvalidUsernameProfile.Success` changes the four profile fields of a `Keycloak.UserModel` object.
- `ResetCredentialChooseUser.FlowContext` is a class. It holds what the authenticator changes in its flow context: the user, the session notes, the reported events, the hook calls made and the flow status.
  - Its methods `Authenticate` and `Action` are proved to produce the states `Authenticated` and `Acted` compute.
  - Lemmas about those functions state the resolver's rules.

Three support modules hold what the extensions rely on:

- `Java`: `Map.get`, `MultivaluedMap.getFirst`, and `String.toLowerCase`, `trim` and `split`. Splitting is proved against an independent join, trimming is shown to be idempotent, and lower-casing is shown to ignore ASCII case and nothing else.
- `Keycloak`: `Validation.isBlank`, the realm settings, the user store, the user model, and the hook request and reply.
- `FormValidation`: the message, event-error and verdict types the two form actions share. It also holds the generic rule that turns an ordered run of checks into a verdict, with the lemmas about that rule.

The host services become inputs. Each one is a function-valued parameter or a datatype of functions:

- the regular-expression engine (`Java.Regex`: whether a pattern compiles, and whether it matches a whole string);
- `Validation.isEmailValid`;
- the user store's lookups by username, e-mail and id;
- `AbstractIdpAuthenticator.getExistingUser`;
- the body returned by the hook's GET request (`Keycloak.HookReply`: a body, or a failed call).

An exception escaping a method is modelled as an explicit outcome:

- `FormValidation.Thrown` stands for an exception out of either `validate`: a null configuration value being dereferenced (`Pattern.compile` of a missing pattern, or a missing denylist in the profile action), or a pattern that does not compile.
- `ResetCredentialChooseUser.Thrown` stands for an exception out of `authenticate`: `getExistingUser` throwing for the broker note (ResetCredentialChooseUserRelexedHook.java:61), or the user an action token names not being found and then dereferenced (:71-75).

Two consequences of the code are worth stating:

- The denylist comparison lower-cases both sides (RegistrationUsername.java:90-92), but the pattern is applied to the username as submitted (:101).
  - So under pattern `^[a-z0-9_]{3,20}$` and denylist `admin,root`, "Admin" is reserved, and it also gets the invalid-characters message (`RegistrationUsername.AdminIsReserved`).
- The denylist pieces are not trimmed (:90), so `admin, root` does not reserve `root`.

## Model

| member | source | states |
|---|---|---|
| Java.MapGet | src/main/java/com/phy25/keycloak/registration/RegistrationUsername.java:88-89 | `Map.get` gives a value exactly when the key is present, and that value is the one stored under the key; otherwise `null` |
| Java.GetFirst | src/main/java/com/phy25/keycloak/registration/RegistrationUsername.java:83 | `getFirst` gives a value exactly when the parameter was submitted with at least one value, and it is the first one |
| Java.Lower | src/main/java/com/phy25/keycloak/registration/RegistrationUsername.java:90-92 | lower-casing keeps the length, turns every upper-case ASCII letter into its lower-case letter, and keeps every other character |
| Java.LowerEqualIff | src/main/java/com/phy25/keycloak/registration/RegistrationUsername.java:90-92 | two strings lower-case to the same string exactly when they have the same length and agree character by character up to ASCII case, so the denylist comparison ignores case and nothing else |
| Java.Trim | src/main/java/com/phy25/keycloak/registration/ResetCredentialChooseUserRelexedHook.java:100 | `trim` gives the infix of the input left after the leading trimmable characters; everything cut off on either side is trimmable, and a non-empty result starts and ends with a character that is not trimmable |
| Java.TrimIdempotent | src/main/java/com/phy25/keycloak/registration/ResetCredentialChooseUserRelexedHook.java:100 | trimming a trimmed string changes nothing |
| Java.TrimEmptyIff | src/main/java/com/phy25/keycloak/registration/ResetCredentialChooseUserRelexedHook.java:91-100 | `trim` leaves the empty string exactly when every character is trimmable |
| Java.Segments | src/main/java/com/phy25/keycloak/registration/RegistrationUsername.java:90 | the pieces between separators: at least one piece, none containing the separator |
| Java.JoinSegments | src/main/java/com/phy25/keycloak/registration/RegistrationUsername.java:90 | joining the pieces with the separator gives the string back |
| Java.SegmentsJoin | src/main/java/com/phy25/keycloak/registration/RegistrationUsername.java:90 | separator-free pieces, joined and split again, are the same pieces |
| Java.DropTrailingEmpty | src/main/java/com/phy25/keycloak/registration/RegistrationUsername.java:90 | the result is a prefix of its input; only empty pieces are dropped, and the result does not end with an empty piece |
| Java.SplitMembership | src/main/java/com/phy25/keycloak/registration/RegistrationUsername.java:90-92 | a non-empty string is among `split`'s results exactly when it is one of the pieces between commas, so dropping trailing empty pieces never matters to the denylist |
| Keycloak.BlankIffTrimEmpty | src/main/java/com/phy25/keycloak/registration/RegistrationUsername.java:84 | a present value is blank exactly when trimming it leaves the empty string |
| Keycloak.HookRequestFor | src/main/java/com/phy25/keycloak/registration/RegistrationUsername.java:109-113 | a hook request is made exactly when the base URL is non-null and not empty, with that URL and the username |
| FormValidation.Messages | src/main/java/com/phy25/keycloak/registration/RegistrationUsername.java:78-126 | a run of checks never has more messages than checks |
| FormValidation.Step | src/main/java/com/phy25/keycloak/registration/RegistrationUsername.java:92-96 | one more check appends its message when it fails and overwrites the event error when it fails and carries one |
| FormValidation.Two | src/main/java/com/keycloak/custom/extensions/ui/RegistrationInvalidUsernameProfile.java:72-78 | a run of two checks shows their messages in order, and its event error is the later overriding check's |
| FormValidation.Three | src/main/java/com/phy25/keycloak/registration/RegistrationUsername.java:87-125 | a run of three checks shows their messages in order, and its event error is that of the last overriding check |
| FormValidation.MessagesAppend | src/main/java/com/keycloak/custom/extensions/ui/RegistrationInvalidUsernameProfile.java:64-118 | the messages of two runs in sequence are the first run's followed by the second's |
| FormValidation.RecordedAppend | src/main/java/com/keycloak/custom/extensions/ui/RegistrationInvalidUsernameProfile.java:70-113 | the event error after two runs is what the second run makes of the first run's event error |
| FormValidation.MessagesAreFailures | src/main/java/com/keycloak/custom/extensions/ui/RegistrationInvalidUsernameProfile.java:64-127 | every failing check's message is shown, and every message shown comes from a failing check |
| FormValidation.NoMessagesIff | src/main/java/com/keycloak/custom/extensions/ui/RegistrationInvalidUsernameProfile.java:120-127 | no message at all exactly when no check failed |
| FormValidation.RecordedIsLastOverride | src/main/java/com/keycloak/custom/extensions/ui/RegistrationInvalidUsernameProfile.java:70-113 | last failure wins: the event error is the last overriding check's, and the initial code survives only when no check overrides |
| RegistrationUsername.Validate | src/main/java/com/phy25/keycloak/registration/RegistrationUsername.java:76-136 | the step-by-step `validate` reaches exactly the verdict of the declarative check run, and sends exactly the specified hook request |
| RegistrationUsername.UsernameMessages | src/main/java/com/phy25/keycloak/registration/RegistrationUsername.java:86-126 | for a non-blank username the messages are the denylist, pattern and hook messages, in that order, each exactly when its check fails |
| RegistrationUsername.EvaluatedOutcome | src/main/java/com/phy25/keycloak/registration/RegistrationUsername.java:86-135 | for a non-blank username and a compiling pattern: success when no check failed, otherwise a rejection with `INVALID_USER_CREDENTIALS` and the failed checks' messages in order |
| RegistrationUsername.BlankUsername | src/main/java/com/phy25/keycloak/registration/RegistrationUsername.java:81-86 | a blank username gives exactly the missing-username message with `INVALID_REGISTRATION`, and no hook request |
| RegistrationUsername.AbsentDenylistNeverReserves | src/main/java/com/phy25/keycloak/registration/RegistrationUsername.java:88-97 | without the denylist key the unavailable message never appears in any verdict |
| RegistrationUsername.ReservedIffDenylisted | src/main/java/com/phy25/keycloak/registration/RegistrationUsername.java:88-97 | the unavailable message appears exactly when the denylist is configured and the lower-cased username equals one of the untrimmed comma-separated pieces of the lower-cased list |
| RegistrationUsername.PatternMismatchIff | src/main/java/com/phy25/keycloak/registration/RegistrationUsername.java:99-106 | the invalid-characters message appears exactly when the pattern does not match the whole username, and it comes right after the unavailable message when both appear |
| RegistrationUsername.HookConsultedOnlyWhenConfigured | src/main/java/com/phy25/keycloak/registration/RegistrationUsername.java:108-113 | the hook is called exactly for a non-blank username under a compiling pattern and a non-null, non-empty URL, even after earlier checks failed, with that URL and the username as submitted |
| RegistrationUsername.HookVetoIsLast | src/main/java/com/phy25/keycloak/registration/RegistrationUsername.java:114-121 | a "yes" body rejects with `INVALID_USER_CREDENTIALS`, and the externally-prevented message is the last one |
| RegistrationUsername.HookFailOpen | src/main/java/com/phy25/keycloak/registration/RegistrationUsername.java:114-124 | any other body, and a failed call, give the same verdict as having no hook URL configured |
| RegistrationUsername.VerdictRule | src/main/java/com/phy25/keycloak/registration/RegistrationUsername.java:128-135 | success exactly when every check passes; on rejection the code is `INVALID_USER_CREDENTIALS` exactly when the username is not blank, and `INVALID_REGISTRATION` exactly when it is |
| RegistrationUsername.ErrorsBounded | src/main/java/com/phy25/keycloak/registration/RegistrationUsername.java:78-126 | a rejection shows one to three messages, all on the username field |
| RegistrationUsername.LowerAdmin | src/main/java/com/phy25/keycloak/registration/RegistrationUsername.java:92 | "Admin" lower-cases to "admin" |
| RegistrationUsername.AdminRootPieces | src/main/java/com/phy25/keycloak/registration/RegistrationUsername.java:90 | the denylist "admin,root" splits into "admin" and "root" |
| RegistrationUsername.AdminIsReserved | src/main/java/com/phy25/keycloak/registration/RegistrationUsername.java:88-106 | under denylist "admin,root", "Admin" is reserved regardless of case, and a lower-case-only pattern applied to it as submitted adds the invalid-characters message too |
| RegistrationInvalidUsernameProfile.ValidateUsername | src/main/java/com/keycloak/custom/extensions/ui/RegistrationInvalidUsernameProfile.java:97-118 | the username block throws exactly on a missing denylist, a missing pattern or a pattern that does not compile (in that order); otherwise it adds the specified username messages and reports whether a credentials check failed |
| RegistrationInvalidUsernameProfile.Validate | src/main/java/com/keycloak/custom/extensions/ui/RegistrationInvalidUsernameProfile.java:64-128 | the step-by-step `validate` reaches exactly the verdict of the declarative check run |
| RegistrationInvalidUsernameProfile.Success | src/main/java/com/keycloak/custom/extensions/ui/RegistrationInvalidUsernameProfile.java:130-137 | `success` sets first name, last name, e-mail and username to the first submitted value of each (or `null`), and changes nothing else on the user |
| RegistrationInvalidUsernameProfile.NamesRun | src/main/java/com/keycloak/custom/extensions/ui/RegistrationInvalidUsernameProfile.java:72-78 | the name checks add the missing first-name and then the missing last-name message for blank fields, and set no event error |
| RegistrationInvalidUsernameProfile.EmailRun | src/main/java/com/keycloak/custom/extensions/ui/RegistrationInvalidUsernameProfile.java:80-95 | the e-mail checks add at most one message, and only a taken e-mail sets `EMAIL_IN_USE` |
| RegistrationInvalidUsernameProfile.UsernameRun | src/main/java/com/keycloak/custom/extensions/ui/RegistrationInvalidUsernameProfile.java:97-118 | the username checks add their messages and set `INVALID_USER_CREDENTIALS` exactly when the denylist or the pattern check failed |
| RegistrationInvalidUsernameProfile.ChecksCollapse | src/main/java/com/keycloak/custom/extensions/ui/RegistrationInvalidUsernameProfile.java:64-127 | the whole run shows the name, then e-mail, then username messages, and reports the username failure's code over a taken e-mail's over `INVALID_REGISTRATION` |
| RegistrationInvalidUsernameProfile.ProfileOutcome | src/main/java/com/keycloak/custom/extensions/ui/RegistrationInvalidUsernameProfile.java:120-127 | without an exception the verdict is success exactly when no message was collected, and otherwise a rejection with all of them and the winning code |
| RegistrationInvalidUsernameProfile.FaultCases | src/main/java/com/keycloak/custom/extensions/ui/RegistrationInvalidUsernameProfile.java:101-110 | a non-blank username with no denylist key, or with no pattern, ends in a null dereference; `validate` throws exactly when the username is not blank and the configuration cannot be read or compiled |
| RegistrationInvalidUsernameProfile.NamesComeFirst | src/main/java/com/keycloak/custom/extensions/ui/RegistrationInvalidUsernameProfile.java:72-78 | the name messages open the list, first name before last name, and every later message is on the e-mail or username field |
| RegistrationInvalidUsernameProfile.NameMessagesIff | src/main/java/com/keycloak/custom/extensions/ui/RegistrationInvalidUsernameProfile.java:72-78 | the missing first-name and last-name messages are shown exactly when those fields are blank |
| RegistrationInvalidUsernameProfile.EmailAtMostOne | src/main/java/com/keycloak/custom/extensions/ui/RegistrationInvalidUsernameProfile.java:80-95 | missing exactly when blank, invalid exactly when present but malformed, taken exactly when valid, duplicates are forbidden and the store finds the e-mail; never two e-mail messages |
| RegistrationInvalidUsernameProfile.EventErrorLastWins | src/main/java/com/keycloak/custom/extensions/ui/RegistrationInvalidUsernameProfile.java:92-113 | a failed denylist or pattern check reports `INVALID_USER_CREDENTIALS` even when the e-mail is taken; a taken e-mail alone reports `EMAIL_IN_USE`; any other rejection `INVALID_REGISTRATION` |
| RegistrationInvalidUsernameProfile.AllChecksReported | src/main/java/com/keycloak/custom/extensions/ui/RegistrationInvalidUsernameProfile.java:64-127 | no early return: every failing check's message is shown, and the form is accepted exactly when no check failed |
| RegistrationInvalidUsernameProfile.BlankUsernameOnlyMissing | src/main/java/com/keycloak/custom/extensions/ui/RegistrationInvalidUsernameProfile.java:98-99 | a blank username adds the missing-username message last, and no other message on the username field |
| RegistrationInvalidUsernameProfile.UsernameMessagesOrdered | src/main/java/com/keycloak/custom/extensions/ui/RegistrationInvalidUsernameProfile.java:100-116 | for a non-blank username the unavailable message (exactly when denylisted) precedes the invalid-characters message (exactly when the pattern fails), and they end the list |
| ResetCredentialChooseUser.BrokerNoteFirst | src/main/java/com/phy25/keycloak/registration/ResetCredentialChooseUserRelexedHook.java:59-67 | with the broker note present, the action-token note plays no part, and the flow succeeds or throws |
| ResetCredentialChooseUser.AuthenticateOutcomes | src/main/java/com/phy25/keycloak/registration/ResetCredentialChooseUserRelexedHook.java:58-83 | the form is shown exactly when neither note is present, keeping the user; success sets the user the note designates; only user and status change |
| ResetCredentialChooseUser.FlowContext.Authenticate | src/main/java/com/phy25/keycloak/registration/ResetCredentialChooseUserRelexedHook.java:58-83 | `authenticate` leaves the context in the state `Authenticated` specifies |
| ResetCredentialChooseUser.Lookup | src/main/java/com/phy25/keycloak/registration/ResetCredentialChooseUserRelexedHook.java:103-106 | a user found by username is the answer; any other answer comes from the e-mail lookup, which is tried only when e-mail login is allowed and the name contains '@'; nobody is found exactly when both lookups that run fail |
| ResetCredentialChooseUser.ResetError | src/main/java/com/phy25/keycloak/registration/ResetCredentialChooseUserRelexedHook.java:114-150 | the externally-prevented message exactly for an unknown user the hook vetoes, whatever the setting; `INVALID_USER` exactly for an unknown, unvetoed user under prompting; `ACCOUNT_DISABLED` exactly for a disabled user under prompting; no error exactly for an enabled user, and for an unknown unvetoed or a disabled user when not prompting |
| ResetCredentialChooseUser.MissingUsernameRejected | src/main/java/com/phy25/keycloak/registration/ResetCredentialChooseUserRelexedHook.java:90-98 | a null or empty username reports `USERNAME_MISSING` and fails with the missing-username message; no note, user or hook call changes |
| ResetCredentialChooseUser.WhitespaceIsNotMissing | src/main/java/com/phy25/keycloak/registration/ResetCredentialChooseUserRelexedHook.java:91-108 | a whitespace-only username is not treated as missing: it is recorded, trimmed to the empty string, as the attempted username |
| ResetCredentialChooseUser.AttemptRecorded | src/main/java/com/phy25/keycloak/registration/ResetCredentialChooseUserRelexedHook.java:108 | every non-missing submission records the trimmed name as the attempted username, changes no other note, and ends in success or a forced challenge |
| ResetCredentialChooseUser.OnlyTrimmedNameMatters | src/main/java/com/phy25/keycloak/registration/ResetCredentialChooseUserRelexedHook.java:100-108 | submitting the trimmed name instead leads to the same state, whenever that name is not empty |
| ResetCredentialChooseUser.UnknownUser | src/main/java/com/phy25/keycloak/registration/ResetCredentialChooseUserRelexedHook.java:114-139 | an unknown user is cleared and `USER_NOT_FOUND` reported with the name; a hook veto shows the externally-prevented message whatever the setting; otherwise `INVALID_USER` exactly when prompting, and silent success when not |
| ResetCredentialChooseUser.HookOnlyForUnknownUsers | src/main/java/com/phy25/keycloak/registration/ResetCredentialChooseUserRelexedHook.java:119-124 | the hook is called exactly for an unknown user and a non-null, non-empty URL, once, with that URL and the trimmed name |
| ResetCredentialChooseUser.DisabledUser | src/main/java/com/phy25/keycloak/registration/ResetCredentialChooseUserRelexedHook.java:140-147 | a disabled user is cleared, the hook is not called, and `ACCOUNT_DISABLED` is shown exactly when prompting (silent success otherwise) |
| ResetCredentialChooseUser.EnabledUser | src/main/java/com/phy25/keycloak/registration/ResetCredentialChooseUserRelexedHook.java:148-150 | a found, enabled user becomes the flow's user, and the flow succeeds without an event or a hook call |
| ResetCredentialChooseUser.ChallengeOrSuccess | src/main/java/com/phy25/keycloak/registration/ResetCredentialChooseUserRelexedHook.java:152-158 | an error always forces the challenge with the user cleared; otherwise the flow succeeds, with a user exactly when the name resolved to an enabled one |
| ResetCredentialChooseUser.FlowContext.Action | src/main/java/com/phy25/keycloak/registration/ResetCredentialChooseUserRelexedHook.java:86-159 | `action` leaves the context in the state `Acted` specifies |

## Left out

- Provider and factory methods, configuration-property metadata, `buildPage`, `requiresUser`, `setRequiredActions` and the other host-registration boilerplate of all three classes: they hold no decision logic.
- `RegistrationUsername.success`: its body is empty.
- `RegistrationInvalidUsernamePage` is not part of this model beyond its field-name constants, which `Keycloak` repeats.
- The profile action imports a message-key constants class, `RegistrationInvalidUsernameConstants`, that is not part of this model. Its keys, like those of `RegistrationUsernameConstants`, become constructors of `FormValidation.MessageKey` and `ResetCredentialChooseUser.ResetMessage`; the strings themselves are not modelled.
- Event details (`REGISTER_METHOD`, `USERNAME`, `EMAIL`) and logging: they have no effect on the verdict. The model records only the reported event codes.
- Building the hook URL with `UriBuilder`, and the HTTP request itself. The hook is a function from the request (base URL and username) to a reply. A `UriBuilder` exception for a malformed base URL is raised outside the `try` block and is not modelled.
- `Java.Lower` models `toLowerCase` on ASCII letters only. Locale-dependent and non-ASCII case mappings are not modelled.
- `Validation.isEmailValid`, the pattern engine, the user store and `getExistingUser` are parameters: their internals are Keycloak's and Java's.
- `getAuthenticatorConfig()` returning `null` (no configuration at all) is not modelled. The configuration is always a map, possibly empty.
- `ResetCredentialChooseUser.FlowContext.Action`: the relative order of reporting `USER_NOT_FOUND` and calling the hook is not observable in the model. Events and hook calls are separate sequences.
- `ResetCredentialChooseUser.FlowContext.Authenticate`: `getExistingUser` throwing (broker note naming an unknown or disabled user) and the action-token user being missing are one `Thrown` status. The kind of exception is not distinguished.
- Rendering of the password-reset page and of the registration form are not modelled. In particular, the `AuthenticationFlowError.INVALID_USER` that accompanies the missing-username failure challenge is implied by `FailureChallenged`.
- `RegistrationInvalidUsernameProfile.Validate` hands its username block to the method `RegistrationInvalidUsernameProfile.ValidateUsername`. Both are proved against their specifications, and together they perform the steps of the one Java method in its order.
