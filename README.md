# Route optimiser session — Dafny model

The route optimiser is a single-page form. The user types a list of
addresses, one per field, and sends them to a chat-completion service,
which answers with a suggested visiting order. This project models the
non-visual part of that form (`src/App.js`) and proves properties of it.

- **Validator** (`validation.dfy`, module `Validation`). It accepts an
  address exactly when the address holds none of the reserved characters
  `@ % & " ' / ( ) ¿ ;` and is not blank. `String.prototype.trim` is written
  out over the full ECMAScript whitespace set (`IsWhitespace`).
- **Message builders** (`messages.dfy`, module `Messages`). The chat message
  shown to the user is `"Necesito optimizar esta ruta: "` followed by the
  `"- "`-bulleted routes joined by single spaces. The instruction sent to
  the service uses en-dash bullets and a fixed Spanish frame. Both are
  plain functions over `map` and `join`. The lemmas locate every route
  verbatim in both strings and show that the two strings always differ.
- **Session** (`session.dfy`, module `RouteSession`). The component state is
  the class `Session`: the address fields, one error flag per field, the
  chat transcript, the loading flag and the error notice. Each event
  handler is a method that updates those fields in place. The invariant
  `Valid()` holds across every handler:
  - there is always at least one field;
  - the field and flag sequences have the same length;
  - each flag is the one its field's value calls for;
  - the transcript opens with the welcome message.

  The network call is not made. `handleSubmit` takes the call's result as
  an `Outcome` parameter (`Ok200(reply)`, `Non200` or `Threw`). It returns
  the prompt it would have sent, or `None` when the gate stops it.

Two behaviours of the code are worth stating:

- A submission whose call fails keeps the user message it appended. The
  transcript ends as the old one plus that message, not as the old one.
- `handleSubmit` has no "already loading" guard of its own. Only the send
  button's `disabled` expression keeps a second submission out, and
  `SubmitEnabledMatchesGate` relates that expression to the gate. The
  Enter-key path (`handleKeyPress`) does not look at the loading flag
  either.

## Model

| member | source | states |
|---|---|---|
| Validation.TrimStart | src/App.js:59 | leading part of `trim`: the result is a suffix of the input that does not start with whitespace, and everything dropped is whitespace |
| Validation.TrimEnd | src/App.js:59 | trailing part of `trim`: the result is a prefix that does not end with whitespace, and everything dropped is whitespace |
| Validation.TrimShape | src/App.js:59 | `s.trim()` is empty exactly when `s` is all whitespace; otherwise it starts and ends with non-whitespace and is no longer than `s` |
| Validation.ValidateInputMeaning | src/App.js:56-61 | `validateInput(s)` holds exactly when no character of `s` is reserved and `s` is not all whitespace; it is defined for every string |
| Validation.ReservedCharRejects | src/App.js:57-59 | a reserved character at any position rejects the input |
| Validation.DigitZeroAccepted | src/App.js:57-59 | the digit `0` is not reserved: appended to any string free of reserved characters, it gives an accepted address |
| Messages.Bulleted | src/App.js:111 | the bulleted list has one item per route |
| Messages.BulletedAt | src/App.js:111 | item `i` is the bullet followed by route `i` |
| Messages.BulletedSnoc | src/App.js:111 | bulleting one more route appends exactly one item |
| Messages.ItemOffsetNext | src/App.js:111 | in a join, consecutive items start one item length plus one separator apart |
| Messages.JoinItemAt | src/App.js:111 | every item appears verbatim in the join, at its offset |
| Messages.JoinSeparatorAfter | src/App.js:111 | every item but the last is followed by the separator |
| Messages.JoinEndsWithLast | src/App.js:111 | the join ends exactly where the last item ends |
| Messages.JoinSnoc | src/App.js:111 | joining one more item appends the separator and that item |
| Messages.FramedItemParts | src/App.js:107-124 | when item `i` of a join is a bullet followed by a route, then with any fixed text around the join, that bullet and that route appear verbatim at the item's offset, shifted by the text before |
| Messages.FramedListHasRoute | src/App.js:120-124 | with any fixed text before and after the list, route `i` still appears verbatim after its bullet, shifted by the text before |
| Messages.UserMessageListsRoute | src/App.js:107-111 | every route appears verbatim in the user message, after `"- "`, at a computed position |
| Messages.PromptListsRoute | src/App.js:120-124 | every route appears verbatim in the prompt, after the en-dash bullet, at a computed position |
| Messages.UserMessageSnoc | src/App.js:110-111 | one more route extends the user message by `" - "` and that route |
| Messages.UserMessageOfOneRoute | src/App.js:110-111 | a single route gives `"Necesito optimizar esta ruta: - "` followed by the route |
| Messages.UserMessageIsNotPrompt | src/App.js:107-124 | for every route list, the user message differs from the prompt |
| RouteSession.InputErrorMeaning | src/App.js:71 | a field is flagged exactly when it is not blank and holds a reserved character; a blank edit is never flagged; a flagged value fails `validateInput` |
| RouteSession.WithoutIndex | src/App.js:84-85 | filtering out a position shortens the sequence by one exactly when the position exists |
| RouteSession.WithoutIndexDeletes | src/App.js:84-85 | `filter((_, i) => i !== index)` deletes exactly that element and keeps the others in order; an out-of-range index removes nothing |
| RouteSession.AppendThenRemoveLast | src/App.js:76-89 | adding a field and then removing the last field restores the sequence |
| RouteSession.PairedAfterDelete | src/App.js:82-89 | deleting the same position from both sequences keeps each flag matched to its field |
| RouteSession.GateAcceptsExactlyValidRoutes | src/App.js:96-98 | with flags computed from their fields, the `every` gate passes exactly when `validateInput` accepts every field |
| RouteSession.SubmitEnabledMatchesGate | src/App.js:293-298 | the send button is enabled exactly when nothing is loading and the gate would pass, that is, when every field is valid |
| RouteSession.Reply | src/App.js:149-169 | reconciling the outcome appends exactly one message, the assistant's reply, on status 200, and nothing on another status or an exception |
| RouteSession.Session.constructor | src/App.js:39-53 | the initial state: one empty, unflagged field, the welcome message, not loading, no error |
| RouteSession.Session.HandleInputChange | src/App.js:64-73 | field `index` becomes `value` and its flag becomes `trim(value) != "" && !validateInput(value)`; everything else, lengths included, is unchanged; repeating the same edit changes nothing; the invariant is kept |
| RouteSession.Session.AddRouteInput | src/App.js:76-79 | appends `""` and `false`; the existing fields and flags are kept; the invariant is kept |
| RouteSession.Session.RemoveRouteInput | src/App.js:82-89 | with more than one field, deletes position `index` from both sequences in order; with one field, or with an index that names no field, changes nothing; at least one field always remains |
| RouteSession.Session.HandleSubmit | src/App.js:92-173 | a failing gate only sets the validation notice (no request; fields, transcript and loading unchanged); a passing gate sends the prompt, appends the user message and, for each outcome, ends with loading off and either the reply appended with no error or the failure notice; the transcript only grows |
| RouteSession.Session.Converse | src/App.js:107-172 | after the gate: returns the request made with the prompt; the transcript gains the user message and then, only on status 200, the reply; the error ends cleared on success and set to the failure notice otherwise; loading ends off for every outcome; the invariant is kept |
| RouteSession.Session.HandleKeyPress | src/App.js:176-188 | Enter without Shift on the last field submits when that field is valid and adds a field otherwise; any other key or field changes nothing |
| RouteSession.Session.ExpireValidationError | src/App.js:102 | the timer a rejected submission starts clears the error notice when it fires |

## Left out

- The `fetch` request, its URL, headers and API key, `response.json()` and the read of `choices[0].message.content` are not modelled. They are network and foreign calls. The `Outcome` parameter stands for their result. `Threw` covers a failed request, a body that is not JSON, and a 200 body with no `choices[0]` or no `.message` in it.
- A 200 body whose `choices[0].message` has no `content` is not modelled. The code reads `undefined` there without throwing, appends an assistant message with content `undefined` and leaves the error cleared. `Ok200(content: string)` carries a string, so it cannot express a missing reply.
- `temperature`, `top_p` and `max_tokens` are not modelled. They are constants passed to the service with no logic of their own.
- `console.log` of the reply is not modelled (output only).
- `async`/`await` and React's batched, stale-closure state updates are not modelled. `HandleSubmit` is one atomic transition, and the "loading" interval inside it is not observable. The code's own use of the transcript as it was before the call (`[...chatMessages, userMessage, reply]`) is kept.
- The three-second timer started after a rejected submission: the delay and the event loop are left out. `ExpireValidationError` is the transition the timer performs when it fires, at whatever moment the caller chooses. It clears whatever notice is showing then.
- The JSX, theme and layout are not modelled. The helper text lists `0` among the forbidden characters, but the validator does not reject it, so the model follows the validator (`DigitZeroAccepted`).
- The delete button's `disabled={routes.length === 1}` is not modelled separately. `RemoveRouteInput` already changes nothing in that case.
- RouteSession.Session.HandleInputChange: requires `index` to name an existing field. Its only callers are the rendered fields, each passing its own position. An index at or past the end would grow the arrays, with holes when it is past the end.
- Validation.IsWhitespace: the Unicode space-separator set is the current one. Characters are Dafny `char`s, and there is no surrogate-pair or normalisation handling.
