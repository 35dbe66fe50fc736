# Alexa skill template: request helpers and slot normalisation, in Dafny

This project models the helper library of a TypeScript voice-assistant skill
template, plus the request interceptor that uses it. Four parts are modelled:

- the **request classifiers**: is this an intent request for one of some intents,
  a request of one of some types, an intent request in a given dialog state;
- the **slot-resolution normaliser** `GetSlotValues`: it turns the platform's
  recognised slots into matched or unmatched outcomes, keyed by slot name;
- the **slot reset helpers**: for every unmatched outcome, they set to `""` the value
  of the live request's slot keyed by that outcome's name, so that the dialog manager
  asks for that slot again;
- the **`Slots` interceptor**: it stores the normalised slots in the request
  attributes under `slots`.

Layout:

- `wrappers.dfy` (`Wrappers`): `Option`, which stands for a property that may be `undefined`.
- `constants.dfy` (`Constants`): the request type tags, the error kinds, the
  resolution status codes, `"COMPLETED"` and the attribute key `slots`.
- `typings.dfy` (`Typings`): the data model.
  - `Request` is an intent request (intent name, slots, a dialog state that may be absent) or a request
    of another type, which carries only its type tag.
  - A slot object is a `SlotTable`: its keys in `Object.keys` order and its entries.
  - `Slot`, `Resolution`, `Status` and `Value` follow the platform's entity-resolution records.
  - `SlotOutcome` is `Matched` or `Unmatched`, after `IMatchedSlotValue` and
    `IUnmatchedSlotValue` (`lambda/custom/typings/index.d.ts:30-95`).
  - The class `HandlerInput` holds the mutable request and the request attributes.
- `helpers.dfy` (`Helpers`): `lambda/custom/lib/helpers.ts`.
- `slots_interceptor.dfy` (`SlotsInterceptor`): `lambda/custom/interceptors/Slots.ts`.

How the model follows the code's own form:

- `IsType` and `IsIntent` are `for…of` loops with an early return. Here they are methods
  with `while` loops, proved to be membership tests.
- `GetSlotValues` fills a dictionary inside `forEach`. Here it is a method whose loop
  invariant ties the partial dictionary to `Normalize`. `Normalize` is a left fold over
  the keys, and its properties are proved as lemmas.
- `ResetSlotValue` and `ResetUnmatchedSlotValues` change `request.intent.slots[…].value`
  in place. Here they are methods that modify `HandlerInput.request`. Their
  postconditions say the new request is `ResetRequest` of the old one, and lemmas
  state what `ResetRequest` does.
- `Slots.process` assigns `attributes.slots`. Here it is a method that modifies
  `HandlerInput.requestAttributes`.

Where the code and its documentation disagree, the model follows the code:

- One might expect every slot to get exactly one outcome. In the code:
  - a slot whose first authority reports a code other than `ER_SUCCESS_MATCH` or
    `ER_SUCCESS_NO_MATCH` gets no outcome (`OtherCodeDropped`);
  - outcomes are keyed by the slot's `name` field, not by its key, so a later slot
    with the same name overwrites an earlier one (`NormalizeLastWriterWins`).
  The one-outcome-per-slot statement holds only when every slot is named by its key
  and no slot has an unrecognised code (`NormalizeByKey`).
- One might expect the reset to blank exactly the slots whose outcome is unmatched.
  The code finds the slot to blank by the outcome's `name`, used as a key
  (`lambda/custom/lib/helpers.ts:110,133`). So that holds only when every slot is named
  by its key (`ResetAfterNormalize`). Otherwise a matched slot can be blanked
  (`ResetMisnamedSlotExample`).
- The doc comment on `IUnmatchedSlotValue` (`lambda/custom/typings/index.d.ts:73`)
  says any code other than `ER_SUCCESS_MATCH` gives an unmatched value. The code
  drops such slots instead, and the model does the same.
- A status code of `""` is falsy, so it takes the "resolution data missing" branch and
  gives an unmatched outcome (`FirstStatusCode`).

Constants: the skill's constants module (`lib/constants.ts`) is not part of this model.

- The request type tags are the platform's (`IntentRequest`, `LaunchRequest`, …).
- `ErrorTypes.Unknown` and `ErrorTypes.Unexpected` are given the stand-in values
  `"UnknownError"` and `"UnexpectedError"`. No proof uses them beyond their being distinct.

## Model

| member | source | states |
|---|---|---|
| `Helpers.IsIntent` | lambda/custom/lib/helpers.ts:12-21 | true iff the request is an intent request and its intent name is among the given names (so false for an empty list and for every other request type) |
| `Helpers.IsType` | lambda/custom/lib/helpers.ts:29-36 | true iff the request's type tag is among the given types (so false for an empty list) |
| `Helpers.IsIntentWithDialogState` | lambda/custom/lib/helpers.ts:45-49 | holds iff the request is an intent request for the given intent and its dialog state is present and equal to the given one; an absent state matches no state |
| `Helpers.IsIntentWithCompleteDialog` | lambda/custom/lib/helpers.ts:69-71 | holds iff the request is an intent request for the intent whose dialog state is `COMPLETED` |
| `Helpers.IsIntentWithIncompleteDialog` | lambda/custom/lib/helpers.ts:57-61 | holds iff the request is for the intent and the complete-dialog predicate does not hold |
| `Helpers.DialogDichotomy` | lambda/custom/lib/helpers.ts:45-71 | for a request for the intent exactly one of complete/incomplete holds; for any other request neither does |
| `Helpers.FirstStatusCode` | lambda/custom/lib/helpers.ts:194-199 | there is no code iff the resolutions, the per-authority list, its first element, the status or the code is missing, or the code is `""`; otherwise the result is the first authority's status code |
| `Helpers.SlotOutcomeOf` | lambda/custom/lib/helpers.ts:190-247 | an outcome copies the slot's name, raw value and confirmation status; it is matched iff the first code is `ER_SUCCESS_MATCH`; a matched outcome is ambiguous iff it lists more than one candidate and lists none otherwise |
| `Helpers.MatchWithSeveralCandidates` | lambda/custom/lib/helpers.ts:204-215 | a match with several candidates is ambiguous, takes id and resolved name from candidate 0, and lists every candidate's value in the original order |
| `Helpers.MatchWithOneCandidate` | lambda/custom/lib/helpers.ts:218-228 | a match with one candidate is not ambiguous, takes that candidate's id and name, and lists no values |
| `Helpers.NoMatchOrMissing` | lambda/custom/lib/helpers.ts:229-247 | `ER_SUCCESS_NO_MATCH`, or missing resolution data, gives an unmatched outcome with the raw value (possibly absent) and confirmation status unchanged |
| `Helpers.OtherCodeDropped` | lambda/custom/lib/helpers.ts:237-238 | any other status code gives no outcome |
| `Helpers.ColaExample` | lambda/custom/lib/helpers.ts:163-181 | the documented "Cola" example yields the documented matched, ambiguous outcome |
| `Helpers.GetSlotValues` | lambda/custom/lib/helpers.ts:185-252 | the dictionary built key by key equals the fold `Normalize` over the keys in order, and is empty for absent slots |
| `Helpers.NormalizeLastWriterWins` | lambda/custom/lib/helpers.ts:189-248 | a name has an outcome iff some slot of that name supplies one, and the outcome is that of the last such slot in key order |
| `Helpers.NormalizeOutcomesWellFormed` | lambda/custom/lib/helpers.ts:204-235 | every outcome is stored under its own name, and every matched outcome is ambiguous iff it lists several candidates |
| `Helpers.NormalizedKeysAreSlotNames` | lambda/custom/lib/helpers.ts:189-192 | every key of the result is the `name` of some input slot |
| `Helpers.NormalizeByKey` | lambda/custom/lib/helpers.ts:185-252 | when slots are named by their keys, each slot has exactly its own outcome under its key, a slot with an unrecognised code has none, and there are no other keys |
| `Helpers.ResetRequestEffect` | lambda/custom/lib/helpers.ts:108-115 | resetting sets to `""` the value of exactly the slots keyed by the given names, changes no other slot field, key or key order, and leaves non-intent requests and requests without slots unchanged |
| `Helpers.ResetCompose` | lambda/custom/lib/helpers.ts:129-135 | resetting one name set after another equals resetting their union, so the visiting order does not matter |
| `Helpers.ResetIdempotent` | lambda/custom/lib/helpers.ts:124-137 | resetting twice by the same names is the same as resetting once |
| `Helpers.ResetAbsentNames` | lambda/custom/lib/helpers.ts:109-114 | names that key no slot leave the request unchanged |
| `Helpers.ResetSlotValue` | lambda/custom/lib/helpers.ts:108-115 | the new request is the old one with the slot keyed by the name, if any, set to `""` |
| `Helpers.UnmatchedNamesByKey` | lambda/custom/lib/helpers.ts:129-134 | when slots are named by their keys, the reset targets are exactly the keys of the slots whose outcome is unmatched |
| `Helpers.ResetMisnamedSlotExample` | lambda/custom/lib/helpers.ts:129-134 | an unmatched slot under key "a" named "b" makes the reset blank the slot under key "b", although that slot's own outcome is matched |
| `Helpers.ResetUnmatchedSlotValues` | lambda/custom/lib/helpers.ts:124-137 | the new request is the old one with every slot named by an unmatched outcome reset, and is unchanged for a non-intent request |
| `Helpers.ResetAfterNormalize` | lambda/custom/lib/helpers.ts:117-137 | when slots are named by their keys, after normalising then resetting, a slot's value is `""` iff its outcome was unmatched; matched and dropped slots keep their value |
| `Helpers.NormalizeAfterReset` | lambda/custom/lib/helpers.ts:185-247 | re-normalising the reset slots gives the same names, with the same matched/unmatched kind under each name |
| `Helpers.Interject` | lambda/custom/lib/helpers.ts:259-261 | the result is the interjection opening tag, then the string unchanged, then the closing tag |
| `Helpers.InterjectInjective` | lambda/custom/lib/helpers.ts:259-261 | different strings give different interjections |
| `Helpers.CreateError` | lambda/custom/lib/helpers.ts:269-277 | the message defaults to "Something unexpected happened."; the kind is the given type or else Unknown; so the error is of kind Unexpected iff that kind was passed explicitly |
| `SlotsInterceptor.SlotsAttributeFor` | lambda/custom/interceptors/Slots.ts:13-17 | a non-intent request stores no outcomes; every stored outcome is under its own name, is ambiguity-consistent, and that name is the name of a slot of the request |
| `SlotsInterceptor.Process` | lambda/custom/interceptors/Slots.ts:10-18 | the `slots` attribute becomes the normalised slots of an intent request or `{}`; every other attribute is unchanged |
| `SlotsInterceptor.IntentWithoutSlots` | lambda/custom/interceptors/Slots.ts:13-14 | an intent request with no slots stores `{}` |
| `SlotsInterceptor.HelloWorldExample` | lambda/custom/interceptors/Slots.ts:13-14 | a hello-world intent with an empty slot object stores `{}` |
| `SlotsInterceptor.IntentOutcomes` | lambda/custom/interceptors/Slots.ts:13-14 | for slots named by their keys, each slot's own outcome is stored under its key, and a slot with an unrecognised code has none |

## Left out

- GetSlotValues: a slot whose first authority reports `ER_SUCCESS_MATCH` with no
  candidates (or no candidate list) makes the code throw a TypeError, because it reads
  candidate 0. The model excludes such slots by precondition (`HasCandidates`) and does
  not model the exception.
- GetSlotValues: `filledSlots[item] &&` is under its own guard, but line 190 already
  reads the slot's fields, so an `undefined` slot throws. The model's slot tables hold only present slots.
- `ISlotValues` entries that are `undefined`: `ResetUnmatchedSlotValues` skips them.
  The model's outcome map has no such entries.
- Keys that JavaScript resolves through the prototype chain (`"constructor"`, …) can
  make `slots[slotName]` find a non-slot object. Such keys are not modelled.
- The `as string` cast on a matched slot's value is unchecked, so a matched outcome
  keeps the raw value as optional, the same way an unmatched one does.
- `GetRequestAttributes`, `GetSessionAttributes`, `GetDirectiveServiceClient` and
  `VoicePlayerSpeakDirective` are left out. They are type casts over SDK objects and
  wrappers around a service client, with no logic of their own.
- The intent handlers, the error handlers, the localisation table
  (`lambda/custom/lib/strings.ts`) and the translator `t` are left out. They are calls into the SDK's
  response builder, logging, and static data. The translator appears only as
  an opaque attribute value.
- Routing errors to the handlers is left out. It depends on the order the skill
  builder registers them in, and that code is not part of this model.
  `CreateError` states the error kinds that routing depends on.
- The local HTTP adapter (`lambda/local/index.ts`) is left out: it is network I/O.
