/** The route-entry session: the list of address fields with one error flag
    per field, the chat transcript, and the loading and error indicators,
    changed in place by the form's event handlers. The completion service is
    not called: its result is the `Outcome` a submission is given. */
module RouteSession {
  import opened Validation
  import opened Messages

  datatype Role = System | User | Assistant

  datatype ChatMessage = ChatMessage(role: Role, content: string)

  /** An optional value; `None` stands for JavaScript's `null`. */
  datatype Option<T> = None | Some(value: T)

  /** What the completion call comes back with: status 200 and the reply
      text; another status; or an exception (a failed request, a body that is
      not JSON, or a 200 body without a first choice or without its message). */
  datatype Outcome = Ok200(content: string) | Non200 | Threw

  const Welcome: ChatMessage := ChatMessage(System,
    "Bienvenido a la aplicación de optimización de rutas. "
    + "Ingresa tus direcciones y te ayudaré a encontrar la ruta óptima.")

  const ValidationMessage: string :=
    "Por favor, corrige los campos " + "con errores antes de enviar."

  const FailureMessage: string :=
    "En este momento no se puede " + "obtener ayuda. Por favor, intenta más tarde."

  /** The error flag a field gets when edited to `value`: set only for a
      non-blank value the validator rejects, so an empty field is "not yet
      filled" rather than wrong. */
  predicate InputError(value: string) {
    Trim(value) != "" && !ValidateInput(value)
  }

  /** A flag marks a non-blank value holding a reserved character: it never
      marks a blank field, and a flagged value is one the validator rejects. */
  lemma InputErrorMeaning(value: string)
    ensures InputError(value) <==>
      !IsBlank(value) && exists i :: 0 <= i < |value| && value[i] in IllegalChars
    ensures InputError(value) ==> !ValidateInput(value)
    ensures IsBlank(value) ==> !InputError(value)
  {
    TrimShape(value);
    ValidateInputMeaning(value);
  }

  /** Keeps every element whose position differs from `index`, walking the
      positions in order. */
  function WithoutIndex<T>(s: seq<T>, index: int): (r: seq<T>)
    ensures |r| == if 0 <= index < |s| then |s| - 1 else |s|
  {
    if s == [] then []
    else WithoutIndex(s[..|s| - 1], index) + (if |s| - 1 == index then [] else [s[|s| - 1]])
  }

  /** Filtering out a position deletes exactly that element and keeps the
      others in order; a position outside the sequence removes nothing. */
  lemma {:induction false} WithoutIndexDeletes<T>(s: seq<T>, index: int)
    ensures WithoutIndex(s, index) == if 0 <= index < |s| then s[..index] + s[index + 1..] else s
  {
    if s != [] {
      var p := s[..|s| - 1];
      WithoutIndexDeletes(p, index);
      if 0 <= index < |p| {
        assert p[..index] + p[index + 1..] + [s[|s| - 1]] == s[..index] + s[index + 1..];
      } else {
        assert p + [s[|s| - 1]] == s;
      }
    }
  }

  /** Adding a field and then removing the last one restores the sequence. */
  lemma AppendThenRemoveLast<T>(s: seq<T>, x: T)
    ensures WithoutIndex(s + [x], |s|) == s
  {
    WithoutIndexDeletes(s + [x], |s|);
    assert (s + [x])[..|s|] == s;
  }

  /** Each flag is the one its field's value calls for, position by position. */
  predicate Paired(routes: seq<string>, inputErrors: seq<bool>) {
    |inputErrors| == |routes| && forall i :: 0 <= i < |routes| ==> inputErrors[i] == InputError(routes[i])
  }

  /** Deleting the same position from both sequences keeps them paired. */
  lemma PairedAfterDelete(routes: seq<string>, inputErrors: seq<bool>, index: nat)
    requires Paired(routes, inputErrors) && index < |routes|
    ensures Paired(routes[..index] + routes[index + 1..], inputErrors[..index] + inputErrors[index + 1..])
  {
    var r, f := routes[..index] + routes[index + 1..], inputErrors[..index] + inputErrors[index + 1..];
    forall i | 0 <= i < |r| ensures f[i] == InputError(r[i]) {
      if i < index {
        assert r[i] == routes[i] && f[i] == inputErrors[i];
      } else {
        assert r[i] == routes[i + 1] && f[i] == inputErrors[i + 1];
      }
    }
  }

  /** The submit gate: every field is non-blank after trimming and not
      flagged. A flag past the end of the flag list is missing, and a missing
      flag does not block. */
  predicate AllValid(routes: seq<string>, inputErrors: seq<bool>) {
    forall i :: 0 <= i < |routes| ==> Trim(routes[i]) != "" && !(i < |inputErrors| && inputErrors[i])
  }

  /** With every flag computed from its field, the gate passes exactly when
      the validator accepts every field. */
  lemma GateAcceptsExactlyValidRoutes(routes: seq<string>, inputErrors: seq<bool>)
    requires Paired(routes, inputErrors)
    ensures AllValid(routes, inputErrors) <==> forall i :: 0 <= i < |routes| ==> ValidateInput(routes[i])
  {
    if AllValid(routes, inputErrors) {
      forall i | 0 <= i < |routes| ensures ValidateInput(routes[i]) {
        assert !InputError(routes[i]);
      }
    } else {
      var i :| 0 <= i < |routes| && !(Trim(routes[i]) != "" && !inputErrors[i]);
      assert !ValidateInput(routes[i]);
    }
  }

  /** The send button is enabled when nothing is loading and no field is
      blank after trimming or flagged. */
  predicate SubmitEnabled(loading: bool, routes: seq<string>, inputErrors: seq<bool>) {
    !loading && !exists i :: 0 <= i < |routes| && (Trim(routes[i]) == "" || (i < |inputErrors| && inputErrors[i]))
  }

  /** The button and the gate agree: while nothing is loading, the button is
      enabled exactly when a submission would pass the gate, and with every
      flag computed from its field, exactly when the validator accepts every
      field. */
  lemma SubmitEnabledMatchesGate(loading: bool, routes: seq<string>, inputErrors: seq<bool>)
    requires Paired(routes, inputErrors)
    ensures SubmitEnabled(loading, routes, inputErrors) <==> !loading && AllValid(routes, inputErrors)
    ensures SubmitEnabled(loading, routes, inputErrors) <==>
      !loading && forall i :: 0 <= i < |routes| ==> ValidateInput(routes[i])
  {
    GateAcceptsExactlyValidRoutes(routes, inputErrors);
    if !loading && !SubmitEnabled(loading, routes, inputErrors) {
      var i :| 0 <= i < |routes| && (Trim(routes[i]) == "" || (i < |inputErrors| && inputErrors[i]));
      assert !(Trim(routes[i]) != "" && !(i < |inputErrors| && inputErrors[i]));
    }
  }

  /** What reconciling the completion call's outcome appends after the user
      message: the assistant's reply on status 200, nothing otherwise. */
  function Reply(outcome: Outcome): (appended: seq<ChatMessage>)
    ensures |appended| <= 1
    ensures appended != [] <==> outcome.Ok200?
    ensures outcome.Ok200? ==> appended[0] == ChatMessage(Assistant, outcome.content)
  {
    match outcome
    case Ok200(reply) => [ChatMessage(Assistant, reply)]
    case _ => []
  }

  class Session {
    var routes: seq<string>
    var inputErrors: seq<bool>
    var chatMessages: seq<ChatMessage>
    var loading: bool
    var error: Option<string>

    /** The two field sequences move in step, there is always a field, each
        flag is the one its field's value calls for, and the transcript
        still opens with the welcome message. */
    ghost predicate Valid()
      reads this
    {
      && 1 <= |routes|
      && Paired(routes, inputErrors)
      && 1 <= |chatMessages|
      && chatMessages[0] == Welcome
    }

    constructor ()
      ensures Valid()
      ensures routes == [""] && inputErrors == [false]
      ensures chatMessages == [Welcome] && !loading && error == None
    {
      routes := [""];
      inputErrors := [false];
      chatMessages := [Welcome];
      loading := false;
      error := None;
    }

    /** `handleInputChange`: field `index` takes `value` and its flag is
        recomputed; every other field and flag stays as it was. */
    method HandleInputChange(index: nat, value: string)
      requires Valid() && index < |routes|
      modifies this`routes, this`inputErrors
      ensures Valid()
      ensures routes == old(routes)[index := value]
      ensures inputErrors == old(inputErrors)[index := InputError(value)]
      ensures old(routes)[index] == value ==> routes == old(routes) && inputErrors == old(inputErrors)
    {
      var newRoutes := routes;
      newRoutes := newRoutes[index := value];
      routes := newRoutes;
      var newInputErrors := inputErrors;
      newInputErrors := newInputErrors[index := InputError(value)];
      inputErrors := newInputErrors;
      assert forall i :: 0 <= i < |routes| ==> inputErrors[i] == InputError(routes[i]);
    }

    /** `addRouteInput`: a new empty, unflagged field at the end. */
    method AddRouteInput()
      requires Valid()
      modifies this`routes, this`inputErrors
      ensures Valid()
      ensures routes == old(routes) + [""]
      ensures inputErrors == old(inputErrors) + [false]
    {
      routes := routes + [""];
      inputErrors := inputErrors + [false];
    }

    /** `removeRouteInput`: deletes field `index` and its flag when more than
        one field exists and `index` names one; otherwise nothing changes. */
    method RemoveRouteInput(index: int)
      requires Valid()
      modifies this`routes, this`inputErrors
      ensures Valid()
      ensures |old(routes)| > 1 && 0 <= index < |old(routes)| ==>
        && routes == old(routes)[..index] + old(routes)[index + 1..]
        && inputErrors == old(inputErrors)[..index] + old(inputErrors)[index + 1..]
      ensures !(|old(routes)| > 1 && 0 <= index < |old(routes)|) ==>
        routes == old(routes) && inputErrors == old(inputErrors)
    {
      if |routes| > 1 {
        WithoutIndexDeletes(routes, index);
        WithoutIndexDeletes(inputErrors, index);
        if 0 <= index < |routes| {
          PairedAfterDelete(routes, inputErrors, index);
        }
        routes := WithoutIndex(routes, index);
        inputErrors := WithoutIndex(inputErrors, index);
      }
    }

    /** The effect of `handleSubmit` given the completion call's outcome.
        A failed gate only shows the validation notice: no request, the
        transcript and loading flag untouched. A passing gate sends the
        prompt, appends the user message, and ends with loading cleared and
        either the reply appended (error cleared) or the failure notice. */
    twostate predicate Submitted(outcome: Outcome, new request: Option<string>)
      reads this
    {
      && routes == old(routes)
      && inputErrors == old(inputErrors)
      && if !AllValid(old(routes), old(inputErrors)) then
           && request == None
           && error == Some(ValidationMessage)
           && chatMessages == old(chatMessages)
           && loading == old(loading)
         else
           && request == Some(Prompt(old(routes)))
           && !loading
           && chatMessages == old(chatMessages) + [ChatMessage(User, UserMessage(old(routes)))] + Reply(outcome)
           && error == (if outcome.Ok200? then None else Some(FailureMessage))
    }

    /** `handleSubmit`, with the completion call's outcome as a parameter;
        `request` is the prompt the call is made with, `None` when no call
        is made. */
    method HandleSubmit(outcome: Outcome) returns (request: Option<string>)
      requires Valid()
      modifies this`chatMessages, this`loading, this`error
      ensures Valid()
      ensures Submitted(outcome, request)
      ensures old(chatMessages) <= chatMessages
    {
      var allValid := AllValid(routes, inputErrors);
      if !allValid {
        error := Some(ValidationMessage);
        return None;
      }
      var userMessage := ChatMessage(User, UserMessage(routes));
      var prompt := Prompt(routes);
      request := Converse(userMessage, prompt, outcome);
    }

    /** The part of `handleSubmit` after the gate: append `userMessage`, raise
        the loading flag and clear the error, make the call with `prompt`,
        then reconcile its outcome and lower the loading flag whatever it
        was. */
    method Converse(userMessage: ChatMessage, prompt: string, outcome: Outcome)
      returns (request: Option<string>)
      requires Valid()
      modifies this`chatMessages, this`loading, this`error
      ensures Valid()
      ensures request == Some(prompt) && !loading
      ensures chatMessages == old(chatMessages) + [userMessage] + Reply(outcome)
      ensures error == (if outcome.Ok200? then None else Some(FailureMessage))
    {
      var before := chatMessages;
      chatMessages := before + [userMessage];
      loading := true;
      error := None;
      request := Some(prompt);
      match outcome {
        case Ok200(reply) =>
          chatMessages := before + [userMessage, ChatMessage(Assistant, reply)];
        case _ =>
          error := Some(FailureMessage);
      }
      loading := false;
    }

    /** `handleKeyPress`: Enter without Shift on the last field submits when
        that field is acceptable and adds a field otherwise; any other key,
        or any other field, changes nothing. */
    method HandleKeyPress(index: int, key: string, shiftKey: bool, outcome: Outcome)
      returns (request: Option<string>)
      requires Valid()
      modifies this
      ensures Valid()
      ensures key == "Enter" && !shiftKey && index == |old(routes)| - 1
              && ValidateInput(old(routes)[index]) ==>
        Submitted(outcome, request)
      ensures key == "Enter" && !shiftKey && index == |old(routes)| - 1
              && !ValidateInput(old(routes)[index]) ==>
        && request == None
        && routes == old(routes) + [""] && inputErrors == old(inputErrors) + [false]
        && chatMessages == old(chatMessages) && loading == old(loading) && error == old(error)
      ensures !(key == "Enter" && !shiftKey && index == |old(routes)| - 1) ==>
        && request == None
        && routes == old(routes) && inputErrors == old(inputErrors)
        && chatMessages == old(chatMessages) && loading == old(loading) && error == old(error)
    {
      request := None;
      if key == "Enter" && !shiftKey {
        if index == |routes| - 1 {
          if ValidateInput(routes[index]) && Trim(routes[index]) != "" {
            request := HandleSubmit(outcome);
          } else {
            AddRouteInput();
          }
        }
      }
    }

    /** The three-second timer a rejected submission starts, firing: whatever
        error is showing then is cleared. */
    method ExpireValidationError()
      requires Valid()
      modifies this`error
      ensures Valid()
      ensures error == None
    {
      error := None;
    }
  }
}
