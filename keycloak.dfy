/**
 * The Keycloak services the extensions consult, reduced to the values they
 * hand back: form field names, `Validation.isBlank`, realm settings, the
 * user store, the writable user model and the outcome of the hook's HTTP call.
 */
module Keycloak {
  import opened Java

  /** Registration form field names (`RegistrationPage` and `RegistrationInvalidUsernamePage`). */
  const FIELD_USERNAME := "username"
  const FIELD_FIRST_NAME := "firstName"
  const FIELD_LAST_NAME := "lastName"
  const FIELD_EMAIL := "email"

  /**
   * `Validation.isBlank`: `null`, or nothing left after `trim()`, which is to
   * say that every character is at most the space (see `BlankIffTrimEmpty`).
   */
  predicate IsBlank(s: Option<string>)
  {
    s.None? || forall k :: 0 <= k < |s.value| ==> IsTrimmable(s.value[k])
  }

  /** A present value is blank exactly when trimming it leaves the empty string. */
  lemma BlankIffTrimEmpty(s: string)
    ensures IsBlank(Some(s)) <==> Trim(s) == []
  {
    TrimEmptyIff(s);
  }

  /** One GET to the hook endpoint: the configured base URL with `username=<value>` appended. */
  datatype HookRequest = HookRequest(baseUrl: string, username: string)

  /** What the hook call produced: the response body as text, or an exception. */
  datatype HookReply = Body(text: string) | Failed

  /** The hook is called only when its base URL is configured and is not the empty string. */
  function HookRequestFor(baseUrl: Option<string>, username: string): (r: Option<HookRequest>)
    ensures r.Some? <==> baseUrl.Some? && baseUrl.value != ""
    ensures r.Some? ==> r.value.baseUrl == baseUrl.value && r.value.username == username
  {
    if baseUrl.Some? && baseUrl.value != "" then Some(HookRequest(baseUrl.value, username)) else None
  }

  /**
   * The hook vetoes when it was called and its body is exactly "yes";
   * any other body, and a failed call, are ignored.
   */
  predicate Vetoed(request: Option<HookRequest>, hook: HookRequest -> HookReply)
  {
    request.Some? && hook(request.value) == Body("yes")
  }

  /** The realm settings the extensions read. */
  datatype Realm = Realm(duplicateEmailsAllowed: bool, loginWithEmailAllowed: bool)

  /** A user as the user store hands it out: an identifier and whether the account is enabled. */
  datatype StoredUser = StoredUser(id: string, enabled: bool)

  /** The user store's lookups; each answers `null` when no user matches. */
  datatype UserStore = UserStore(
    byUsername: string -> Option<StoredUser>,
    byEmail: string -> Option<StoredUser>,
    byId: string -> Option<StoredUser>)

  /** The user a registration creates, with the profile attributes a form action may set. */
  class UserModel {
    const id: string
    var username: Option<string>
    var firstName: Option<string>
    var lastName: Option<string>
    var email: Option<string>
    var enabled: bool
  }
}
