/**
 * What the two registration form actions have in common: field-scoped
 * messages, the event error reported to Keycloak, the verdict, and the rule
 * that turns a run of checks into a verdict. Every failing check adds its
 * message, in order; a failing check that carries an event error overwrites
 * the one recorded so far, so the last such check decides the reported code.
 */
module FormValidation {
  import opened Java

  /** The registration form field a message is attached to. */
  datatype Field = Username | FirstName | LastName | Email

  /**
   * Message keys: Keycloak's own (`Messages.MISSING_USERNAME`, ...) and the
   * extensions' (`USER_NAME_NOT_AVAILABLE`, `INVALID_USER_NAME_CHARACTERS`,
   * `REGISTRATION_PREVENTED_EXTERNAL`).
   */
  datatype MessageKey =
    | MissingUsername | MissingFirstName | MissingLastName
    | MissingEmail | InvalidEmail | EmailExists
    | UsernameNotAvailable | InvalidUsernameCharacters | RegistrationPreventedExternal

  /** A `FormMessage`: a key shown next to one field. */
  datatype FormMessage = FormMessage(field: Field, key: MessageKey)

  /** The `Errors.*` codes a registration form action reports with `context.error`. */
  datatype EventError = InvalidRegistration | InvalidUserCredentials | EmailInUse

  /** An exception escaping `validate` (a null dereference, or a pattern that does not compile). */
  datatype Fault = NullPointer | PatternSyntax

  /**
   * How `validate` ends: `context.success()`, `context.error(code)` followed by
   * `context.validationError(formData, errors)`, or an exception.
   */
  datatype Verdict = Accepted | Rejected(eventError: EventError, errors: seq<FormMessage>) | Thrown(fault: Fault)

  /** The messages a verdict shows (none unless it is a rejection). */
  function ErrorsOf(v: Verdict): seq<FormMessage>
  {
    if v.Rejected? then v.errors else []
  }

  /** One check of a form action: whether it failed, the message it adds, and the event error it sets. */
  datatype Check = Check(failed: bool, message: FormMessage, code: Option<EventError>)

  /** A failing check that sets an event error. */
  predicate Overrides(c: Check)
  {
    c.failed && c.code.Some?
  }

  /** The messages of the failing checks, in the order the checks run. */
  function Messages(checks: seq<Check>): (r: seq<FormMessage>)
    ensures |r| <= |checks|
  {
    if checks == [] then []
    else
      var last := checks[|checks| - 1];
      Messages(checks[..|checks| - 1]) + (if last.failed then [last.message] else [])
  }

  /** The event error set by the last check that overrides one, or `initial` when none does. */
  function Recorded(checks: seq<Check>, initial: EventError): EventError
  {
    if checks == [] then initial
    else if Overrides(checks[|checks| - 1]) then checks[|checks| - 1].code.value
    else Recorded(checks[..|checks| - 1], initial)
  }

  /** The single decision at the end of `validate`: any message means rejection. */
  function Decide(checks: seq<Check>, initial: EventError): Verdict
  {
    var errors := Messages(checks);
    if |errors| > 0 then Rejected(Recorded(checks, initial), errors) else Accepted
  }

  /** Running one more check appends its message if it fails and overwrites the code if it overrides. */
  lemma Step(checks: seq<Check>, c: Check, initial: EventError)
    ensures Messages(checks + [c]) == Messages(checks) + (if c.failed then [c.message] else [])
    ensures Recorded(checks + [c], initial) == if Overrides(c) then c.code.value else Recorded(checks, initial)
  {
    assert (checks + [c])[..|checks|] == checks;
  }

  /** What one check contributes to the messages. */
  function Emitted(c: Check): seq<FormMessage>
  {
    if c.failed then [c.message] else []
  }

  /** The messages and the recorded code of a run of two checks. */
  lemma Two(a: Check, b: Check, initial: EventError)
    ensures Messages([a, b]) == Emitted(a) + Emitted(b)
    ensures Recorded([a, b], initial)
            == if Overrides(b) then b.code.value else if Overrides(a) then a.code.value else initial
  {
    Step([], a, initial);
    Step([a], b, initial);
    assert [] + [a] == [a];
    assert [a] + [b] == [a, b];
  }

  /** The messages and the recorded code of a run of three checks. */
  lemma Three(a: Check, b: Check, c: Check, initial: EventError)
    ensures Messages([a, b, c]) == Emitted(a) + Emitted(b) + Emitted(c)
    ensures Recorded([a, b, c], initial)
            == if Overrides(c) then c.code.value else if Overrides(b) then b.code.value
               else if Overrides(a) then a.code.value else initial
  {
    Two(a, b, initial);
    Step([a, b], c, initial);
    assert [a, b] + [c] == [a, b, c];
  }

  /** The messages of two runs in sequence are the messages of each, concatenated. */
  lemma {:induction false} MessagesAppend(a: seq<Check>, b: seq<Check>)
    ensures Messages(a + b) == Messages(a) + Messages(b)
  {
    if b == [] {
      assert a + b == a;
    } else {
      var b' := b[..|b| - 1];
      MessagesAppend(a, b');
      assert (a + b)[..|a + b| - 1] == a + b';
    }
  }

  /** The code recorded after two runs in sequence: the second run starts from the first run's code. */
  lemma {:induction false} RecordedAppend(a: seq<Check>, b: seq<Check>, initial: EventError)
    ensures Recorded(a + b, initial) == Recorded(b, Recorded(a, initial))
  {
    if b == [] {
      assert a + b == a;
    } else {
      var b' := b[..|b| - 1];
      RecordedAppend(a, b', initial);
      assert (a + b)[..|a + b| - 1] == a + b';
      assert (a + b)[|a + b| - 1] == b[|b| - 1];
    }
  }

  /** Every failing check contributes its message, and every message comes from a failing check. */
  lemma {:induction false} MessagesAreFailures(checks: seq<Check>)
    ensures forall k :: 0 <= k < |checks| && checks[k].failed ==> checks[k].message in Messages(checks)
    ensures forall m :: m in Messages(checks) ==> exists k :: 0 <= k < |checks| && checks[k].failed && checks[k].message == m
  {
    if checks != [] {
      var init := checks[..|checks| - 1];
      MessagesAreFailures(init);
      assert forall k :: 0 <= k < |init| ==> init[k] == checks[k];
    }
  }

  /** No message at all exactly when no check failed. */
  lemma NoMessagesIff(checks: seq<Check>)
    ensures Messages(checks) == [] <==> forall k :: 0 <= k < |checks| ==> !checks[k].failed
  {
    MessagesAreFailures(checks);
  }

  /**
   * Last wins: the recorded code is that of the last overriding check, and
   * the initial code survives only when no check overrides.
   */
  lemma {:induction false} RecordedIsLastOverride(checks: seq<Check>, initial: EventError)
    ensures (forall k :: 0 <= k < |checks| ==> !Overrides(checks[k])) ==> Recorded(checks, initial) == initial
    ensures forall k :: 0 <= k < |checks| && Overrides(checks[k])
                        && (forall j :: k < j < |checks| ==> !Overrides(checks[j]))
                        ==> Recorded(checks, initial) == checks[k].code.value
  {
    if checks != [] {
      var n := |checks| - 1;
      var init := checks[..n];
      RecordedIsLastOverride(init, initial);
      assert forall k :: 0 <= k < |init| ==> init[k] == checks[k];
      forall k | 0 <= k < |checks| && Overrides(checks[k]) && (forall j :: k < j < |checks| ==> !Overrides(checks[j]))
        ensures Recorded(checks, initial) == checks[k].code.value
      {
        if k < n {
          assert !Overrides(checks[n]);
          assert forall j :: k < j < |init| ==> !Overrides(init[j]);
        }
      }
    }
  }
}
