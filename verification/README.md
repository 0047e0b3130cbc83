# Verification of the Cua driver's protocols

Cua lets a program drive a computer that somebody else may be using. The driver publishes
portable contracts for its tools, speaks to its Rust core through generated bindings, and on
Linux injects input through a patched compositor, window by window and without taking the
focus. This project models the parts of it on which the rest relies and proves what they
are for. `dafny verify dfyconfig.toml` checks all of it.

## What is modelled

**Schema compatibility** (`Json`, `JsonSchema`, `Compatibility`, `CompatibilityReasons`,
`CompatibilityAcceptance`, `CompatibilitySoundness`, `CompatibilityConditions`,
`CompatibilityTransitivity`, `ListWindows`). The checker that compares a portable schema with a
live tool's schema fills a report; each of its methods is proved to add nothing exactly when a
predicate on the two schemas holds, and to complain of exactly what is wrong, with the path to
it. `PassesExactly` says keyword by keyword what passes. `Accepts` is a definition of JSON
Schema 2020-12 for the same dialect (Validation sections 6.1 to 6.5, Core sections 10.3.1.2,
10.3.2.1 and 10.3.2.3) that does not mention the checker; a node with a keyword outside the
dialect means whatever an arbitrary oracle says. `NodeExact` connects the two: it says what the
checker passes over. Soundness follows under conditions that make up for it, and each condition
is shown to be what is needed. Transitivity and the agreement of the hand-written window-list
check with its schema build on the same definitions.

**Call targets** (`ActionTarget`). The rewriting of a typed target into flat arguments.

**Stable window identities** (`KWinTokens`). The token table that the KWin helper keeps from one
snapshot to the next. A ledger of all tokens ever issued is kept beside the table.

**Bindings** (`Bytes`, `RustBuffer`, `Codec`, `Utf8`, `StateCodec`, `StateCanonical`,
`StateConverters`, `ActionCodec`, `ActionConverters`, `WireFormat`, `HandleMap`, `AsyncCall`).
The growing buffer and the stream, the converters on top of them, the handle map, and the
protocol by which a Rust future is polled from Python. The codec modules give each wire format
as a pair of functions and prove that they undo each other; the converter modules are the code
that writes and reads step by step, each method proved to append that encoding or to follow that
decoding. `WireFormat` spells the bytes out. An asynchronous call is a state machine over its
interleavings: polls, continuation callbacks that may come late, twice or never, scheduled jobs
of the event loop, cancellation, completion, free. What must not happen is an invariant; what
does happen is stated for every run and its next events.

**The compositor** (`ControlSocket`, `CompositorSession`, `Targets`, `Injection`, `Compositor`,
`StepEffects`, `Delivery`, `PointerDiscipline`, `PointerTargets`, `FocusSafety`,
`KeyboardProtocol`, `Typing`). The control socket reads lines through a buffer of 16384 bytes;
commands resolve a window and send it pointer and keyboard events. `Injection` says what each
step does to the compositor's state and what it sends; `Compositor` is the same code in place on
its arrays, each method proved equal to its step; the remaining modules prove what each command
sends, what runs of steps keep and who receives what. The display server is a trace of events,
the pointer and keyboard focus of its seat, and an environment that answers which surface has
which root, whose client has a pointer or a keyboard, and what lies under a point. Typing is
judged by the client: a reader that knows only the layout and the events it gets.

## What the code does not do

Some things the code or its comments promise hold only under conditions. They are stated as
theorems, with an input that shows the failure or with the exact condition.

- `compatibility.rs` lines 34-38 promise that an empty report proves the implication. That
  needs (a) an object that is closed on the portable side or declares every live property, or
  whose schema for other properties passes against the live one's,
  (b) a live `type` that is a single type or a list that covers what the portable schema fixes,
  (c) a live `additionalProperties` that is a boolean or for which the same holds, (d) a live
  `enum` beside a `const` that contains the constant, and (e) bounds that 64-bit floats order
  as they are. `CompatibilityConditions` says for each of them when the promise survives without
  it, and gives a pair of schemas for which it does not. It also needs live keywords of the
  usual shapes: `type` a string or a list, `enum` a list, `required` a list of strings and
  `properties` an object; a malformed `enum` is the example. Nodes that are equal need none of
  this.
- Passing is not transitive: an untyped enumeration in the middle joins two types.
- The window-list check refuses `1.0` for an integer, which its schema accepts.
- A button or a scroll goes to the surface its device last entered, even when another window
  is addressed. The buttons of device 0 go to whatever the seat points at: to nobody, if the
  device was never moved, and to nobody or a window that is gone, once the window it was on is
  unmapped. All of these are answered with `ok`.
- Unmapping a window forgets surfaces by their root. A popup is its own root, so a device on a
  popup stays there.
- No command ever leaves the keyboard of a window. Typing into a second window and then the
  first again enters the first one twice; so does activating a window that was typed into in the
  background; and a window that was typed into while it had the focus gets keys without an enter
  once it has lost it. Typing only into the window with the focus is safe.
- The numbers of `pid:` and `root:` addresses are cast to 32 bits. 2^32 + 5 reaches process 5;
  numbers that become negative, such as those from 2^31 to 2^32 - 1, reach nobody.
- A text of more than 4095 characters is typed in part and answered with `ok`. From 8190
  characters on its line does not fit the buffer, and the connection is dropped without a reply.
- A character that shares its key with line feed or tab (carriage return does on a US layout)
  is typed as that key and read as line feed or tab.
- Booleans have 255 encodings for true; records with a boolean are therefore not canonical.
- Window tokens are unique for 2^64 issues, then the counter wraps.

## Model

| member | source | states |
|---|---|---|
| `CompatibilitySoundness.SchemaSubsetViolations` | libs/cua-driver/rust/crates/cua-driver-contract/src/compatibility.rs:39-43 | the report is empty exactly when `Compatible` holds, it holds exactly the reasons there are, each with its path, and an empty report under `Guarded` proves that every value the portable schema accepts is accepted by the live one, whatever unsupported keywords mean |
| `Compatibility.CompareSchema` | libs/cua-driver/rust/crates/cua-driver-contract/src/compatibility.rs:45-90 | the report keeps what it held and grows by nothing exactly when the two schemas are compatible at this node and below it, and by exactly the reasons found there otherwise; equal schemas pass unread |
| `Compatibility.CheckKeywords` | libs/cua-driver/rust/crates/cua-driver-contract/src/compatibility.rs:92-105 | complains of exactly the keywords outside the dialect, of nothing if there are none |
| `Compatibility.CompareType` | libs/cua-driver/rust/crates/cua-driver-contract/src/compatibility.rs:107-135 | adds nothing exactly when the live type is unset (or a list), is covered by the portable one, or has every portable constant; each complaint names the type or the value that is not covered |
| `Compatibility.CompareAllowedValues` | libs/cua-driver/rust/crates/cua-driver-contract/src/compatibility.rs:160-182 | complains of exactly the values that the portable schema allows and the live one does not, or of there being no such list |
| `Compatibility.CompareLowerBound` | libs/cua-driver/rust/crates/cua-driver-contract/src/compatibility.rs:192-221 | adds nothing exactly when the live bound is absent, or both are numbers and the portable one is no lower as a float; otherwise says which of four things is wrong |
| `Compatibility.CompareUpperBound` | libs/cua-driver/rust/crates/cua-driver-contract/src/compatibility.rs:223-252 | adds nothing exactly when the live bound is absent, or both are numbers and the portable one is no higher as a float; otherwise says which of four things is wrong |
| `Compatibility.CompareObject` | libs/cua-driver/rust/crates/cua-driver-contract/src/compatibility.rs:265-307 | adds nothing exactly when every portable property passes against its live one, live requires nothing more, and does not close an open object; complains of each of these that fails, by name |
| `Compatibility.Report.Push` | libs/cua-driver/rust/crates/cua-driver-contract/src/compatibility.rs:55-55 | a violation and its path are put behind the ones already found |
| `CompatibilityReasons.NoReasonExactly` | libs/cua-driver/rust/crates/cua-driver-contract/src/compatibility.rs:34-43 | the promise to return every reason: a pair is compatible if and only if, at every path into it, none of the reasons for a complaint applies |
| `CompatibilityReasons.FlatExactly` | libs/cua-driver/rust/crates/cua-driver-contract/src/compatibility.rs:92-252 | the same for the keywords of one node that hold no schema |
| `CompatibilityReasons.CompatibleHasNoReason` | libs/cua-driver/rust/crates/cua-driver-contract/src/compatibility.rs:45-90 | nothing is complained of inside a compatible pair, at any depth |
| `CompatibilityAcceptance.KnownKeywordsAre` | libs/cua-driver/rust/crates/cua-driver-contract/src/compatibility.rs:15-32 | the seventeen keywords of the dialect |
| `CompatibilityAcceptance.PassesExactly` | libs/cua-driver/rust/crates/cua-driver-contract/src/compatibility.rs:45-307 | keyword by keyword: two schemas pass if and only if they are equal, or are objects of known keywords, each live keyword asks no more than the portable node promises, and each portable property is declared and passes |
| `CompatibilityAcceptance.FewerLiveKeywordsPass` | libs/cua-driver/rust/crates/cua-driver-contract/src/compatibility.rs:45-307 | taking a keyword away from the live node never makes a passing pair fail, but for `properties` and a `const` that hides an `enum` |
| `CompatibilityAcceptance.ClosedIgnoresAdditional` | libs/cua-driver/rust/crates/cua-driver-contract/src/compatibility.rs:294-306 | beside a closed portable node it makes no difference whether the live one is closed, open or says nothing |
| `CompatibilityAcceptance.OpenBesideClosed` | libs/cua-driver/rust/crates/cua-driver-contract/src/compatibility.rs:302-306 | an open portable node that accepts an object is never in implication with a closed live one, so refusing it is right |
| `CompatibilityAcceptance.AnnotationsDoNotMatter` | libs/cua-driver/rust/crates/cua-driver-contract/src/compatibility.rs:32-32 | adding or changing an annotation on either side leaves a schema compatible with itself |
| `CompatibilitySoundness.Soundness` | libs/cua-driver/rust/crates/cua-driver-contract/src/compatibility.rs:34-38 | the documented promise: compatible schemas under the side conditions at every compared node are in implication, for every value and every meaning of unsupported keywords |
| `CompatibilitySoundness.TypeSound` | libs/cua-driver/rust/crates/cua-driver-contract/src/compatibility.rs:107-148 | a value the portable schema accepts has the live type, be it by the portable type or by its constants |
| `CompatibilitySoundness.AllowedSound` | libs/cua-driver/rust/crates/cua-driver-contract/src/compatibility.rs:150-182 | a value the portable schema accepts is equal to the live constant, or to one of the live enumeration where there is no constant |
| `CompatibilitySoundness.RequiredSound` | libs/cua-driver/rust/crates/cua-driver-contract/src/compatibility.rs:286-292 | a value the portable schema accepts has every name the live schema requires |
| `CompatibilitySoundness.AcceptedIsAllowed` | libs/cua-driver/rust/crates/cua-driver-contract/src/compatibility.rs:150-158 | whatever a schema accepts equals one of its allowed values, if it has any |
| `CompatibilitySoundness.MatchingValueHasType` | libs/cua-driver/rust/crates/cua-driver-contract/src/compatibility.rs:137-148 | the checker's own type test implies the type in the sense of JSON Schema, for all equal values |
| `CompatibilitySoundness.NodeExact` | libs/cua-driver/rust/crates/cua-driver-contract/src/compatibility.rs:45-90 | one compared node: a value the portable schema accepts is accepted by a compatible live node if and only if it is accepted by the keywords the checker passes over: a list of types, an enumeration beside a constant, properties only live declares, and additional properties given by a schema |
| `CompatibilitySoundness.FlatExact` | libs/cua-driver/rust/crates/cua-driver-contract/src/compatibility.rs:107-252 | the keywords without subschemas: all of them carry over but those two |
| `CompatibilitySoundness.TypeListSound` | libs/cua-driver/rust/crates/cua-driver-contract/src/compatibility.rs:108-110 | a list of types does no harm if it covers what the portable node fixes, by the rules for a single type |
| `CompatibilitySoundness.PropertiesSound` | libs/cua-driver/rust/crates/cua-driver-contract/src/compatibility.rs:276-284 | properties only live declares do no harm if the portable node is closed, or its schema for undeclared properties passes against them |
| `CompatibilitySoundness.AdditionalSound` | libs/cua-driver/rust/crates/cua-driver-contract/src/compatibility.rs:298-301 | a live schema for additional properties does no harm under the same condition |
| `CompatibilitySoundness.ClosedNames` | libs/cua-driver/rust/crates/cua-driver-contract/src/compatibility.rs:294-306 | what a closed portable node accepts has only names that both nodes declare |
| `CompatibilitySoundness.BesideConstSound` | libs/cua-driver/rust/crates/cua-driver-contract/src/compatibility.rs:150-158 | an enumeration beside a constant does no harm if it contains the constant |
| `CompatibilityConditions.UniversalExactly` | libs/cua-driver/rust/crates/cua-driver-contract/src/compatibility.rs:34-38 | a schema of the dialect accepts every value if and only if none of its keywords, at any depth, leaves a value out, which can be read off it |
| `CompatibilityConditions.RestExact` | libs/cua-driver/rust/crates/cua-driver-contract/src/compatibility.rs:265-306 | conditions (a) and (c) together, for any pair whose portable node has no `const` or `enum` and accepts an object: the implication holds if and only if the portable schema for undeclared properties implies the live schema of each property only live declares, and the live schema for the rest |
| `CompatibilityConditions.OpenObjectMeaning` | libs/cua-driver/rust/crates/cua-driver-contract/src/compatibility.rs:269-284 | condition (a) for an open portable node without `const` or `enum`: the implication holds if and only if each undeclared live property accepts every value |
| `CompatibilityConditions.OpenObjectExact` | libs/cua-driver/rust/crates/cua-driver-contract/src/compatibility.rs:294-306 | condition (a) as a test, for the same nodes: the implication holds if and only if each of those properties is such a schema |
| `CompatibilityConditions.OpenObjectCounterexample` | libs/cua-driver/rust/crates/cua-driver-contract/src/compatibility.rs:269-284 | `{"type": "object"}` passes against a live schema that types an optional property, and does not imply it |
| `CompatibilityConditions.TypeListExact` | libs/cua-driver/rust/crates/cua-driver-contract/src/compatibility.rs:108-110 | condition (b) for any pair: the implication holds if and only if the live list covers each of the seven kinds of values that the portable schema accepts one of |
| `CompatibilityConditions.TypedListExact` | libs/cua-driver/rust/crates/cua-driver-contract/src/compatibility.rs:108-135 | condition (b) as a test: for a portable schema with a type, one accepted value given, the implication holds if and only if the list contains a type that covers it |
| `CompatibilityConditions.UntypedListExact` | libs/cua-driver/rust/crates/cua-driver-contract/src/compatibility.rs:108-126 | for a portable schema that accepts something of every type the implication holds if and only if all six types are listed |
| `CompatibilityConditions.EmptyPortableListExact` | libs/cua-driver/rust/crates/cua-driver-contract/src/compatibility.rs:108-126 | in particular the schema without constraints passes against every list, and implies it if and only if it is complete |
| `CompatibilityConditions.TypeListCounterexample` | libs/cua-driver/rust/crates/cua-driver-contract/src/compatibility.rs:108-110 | `{"type": "string"}` passes against a live schema for integers and null, and does not imply it |
| `CompatibilityConditions.AdditionalSchemaMeaning` | libs/cua-driver/rust/crates/cua-driver-contract/src/compatibility.rs:298-301 | condition (c) for an open portable node without `const` or `enum`: a live `additionalProperties` that is a schema is not looked at, and the implication holds if and only if it accepts every value |
| `CompatibilityConditions.AdditionalSchemaExact` | libs/cua-driver/rust/crates/cua-driver-contract/src/compatibility.rs:298-301 | condition (c) as a test, for the same nodes: the implication holds if and only if that schema leaves no value out |
| `CompatibilityConditions.AdditionalSchemaCounterexample` | libs/cua-driver/rust/crates/cua-driver-contract/src/compatibility.rs:298-301 | `{"type": "object"}` passes against a live schema for objects of strings, and does not imply it |
| `CompatibilityConditions.ConstAndEnumExact` | libs/cua-driver/rust/crates/cua-driver-contract/src/compatibility.rs:150-158 | condition (d) for any pair whose portable schema accepts a value: a live `enum` beside a `const` is not looked at, and the implication holds if and only if it contains the constant |
| `CompatibilityConditions.ConstAndEnumCounterexample` | libs/cua-driver/rust/crates/cua-driver-contract/src/compatibility.rs:150-158 | the constant 1 passes against the constant 1 from an enumeration that holds only 2, and does not imply it |
| `CompatibilityConditions.MalformedEnumCounterexample` | libs/cua-driver/rust/crates/cua-driver-contract/src/compatibility.rs:154-157 | a live `enum` that is not a list is passed over, and need not be implied |
| `CompatibilityConditions.MinimumMeaning` | libs/cua-driver/rust/crates/cua-driver-contract/src/compatibility.rs:188-221 | the checker orders minima as floats while the implication orders them as numbers |
| `CompatibilityConditions.MaximumMeaning` | libs/cua-driver/rust/crates/cua-driver-contract/src/compatibility.rs:188-252 | the checker orders maxima as floats while the implication orders them as numbers |
| `CompatibilityConditions.MinimumExact` | libs/cua-driver/rust/crates/cua-driver-contract/src/compatibility.rs:188-190 | condition (e), for a schema with a minimum: it is safe on the live side against every exact one if and only if it does not round down, on the portable side if and only if it does not round up |
| `CompatibilityConditions.MaximumExact` | libs/cua-driver/rust/crates/cua-driver-contract/src/compatibility.rs:188-190 | condition (e) for maxima, with the two sides of rounding exchanged |
| `CompatibilityConditions.LengthMeaning` | libs/cua-driver/rust/crates/cua-driver-contract/src/compatibility.rs:70-73 | a bound on lengths or counts implies another if and only if every natural number that meets the one meets the other |
| `CompatibilityConditions.LiveLengthExact` | libs/cua-driver/rust/crates/cua-driver-contract/src/compatibility.rs:188-252 | condition (e) for the four bounds on lengths and counts, on the live side: safe against every exact one if and only if it does not round the wrong way or leaves out no length at all |
| `CompatibilityConditions.PortableLengthExact` | libs/cua-driver/rust/crates/cua-driver-contract/src/compatibility.rs:188-252 | the same on the portable side |
| `CompatibilityConditions.RoundedLengthCounterexample` | libs/cua-driver/rust/crates/cua-driver-contract/src/compatibility.rs:70-72 | 2^53 passes against 2^53 + 1 as `minLength` and as `minItems`, and does not imply it |
| `CompatibilityConditions.RoundedMinimumCounterexample` | libs/cua-driver/rust/crates/cua-driver-contract/src/compatibility.rs:188-221 | minimum 2^53 passes against minimum 2^53 + 1 and does not imply it |
| `Json.RoundsToNearest` | libs/cua-driver/rust/crates/cua-driver-contract/src/compatibility.rs:188-190 | an integer becomes the nearest multiple of the weight of its 53rd bit, the even one of two that are as near |
| `Json.JsonEqualTransitive` | libs/cua-driver/rust/crates/cua-driver-contract/src/compatibility.rs:175-181 | equality of values as JSON Schema means it, 1 and 1.0 alike, is transitive through arrays and objects |
| `Json.SmallIntegersAreExact` | libs/cua-driver/rust/crates/cua-driver-contract/src/compatibility.rs:188-190 | every integer of fewer than 54 bits is its own float, so condition (e) is free for them |
| `CompatibilityTransitivity.TransitivityExact` | libs/cua-driver/rust/crates/cua-driver-contract/src/compatibility.rs:45-307 | from a pass of (a, b) and of (b, c), (a, c) passes if and only if the types chain at every compared path |
| `CompatibilityTransitivity.NodesCompose` | libs/cua-driver/rust/crates/cua-driver-contract/src/compatibility.rs:63-73 | at one node keywords, allowed values and bounds always compose, and the whole does if and only if the types chain |
| `CompatibilityTransitivity.TypesCompose` | libs/cua-driver/rust/crates/cua-driver-contract/src/compatibility.rs:107-135 | the type comparison composes if and only if the types chain: an untyped enumeration in the middle is the only break |
| `CompatibilityTransitivity.UntypedMiddleCounterexample` | libs/cua-driver/rust/crates/cua-driver-contract/src/compatibility.rs:111-126 | `{"enum": [1]}` passes between a string schema and the integer schema, which do not pass together |
| `ListWindows.ValidateListWindowsOutput` | libs/cua-driver/rust/crates/cua-driver-contract/src/desktop.rs:70-86 | answers Ok exactly on an object whose `windows` is an array of records, each with a `z_index` that is null or written as an integer |
| `ListWindows.OneFailure` | libs/cua-driver/rust/crates/cua-driver-contract/src/desktop.rs:71-84 | a refused value has exactly one reason: `windows` is no array, or the first record that is not valid lacks its `z_index` or has one that is no integer |
| `ListWindows.ValidatorAgreesWithSchema` | libs/cua-driver/rust/crates/cua-driver-contract/src/desktop.rs:46-86 | the hand-written check accepts exactly the values the published schema accepts, save those with an integer written as a float |
| `ListWindows.OutputMeaning` | libs/cua-driver/rust/crates/cua-driver-contract/src/desktop.rs:46-68 | what the published schema says in plain terms, whatever unsupported keywords mean |
| `ListWindows.IntegralFloatCounterexample` | libs/cua-driver/rust/crates/cua-driver-contract/src/desktop.rs:46-86 | a `z_index` of 1.0 is accepted by the schema and refused by the check |
| `ActionTarget.Arguments.NormalizeActionTarget` | libs/cua-driver/rust/crates/cua-driver-core/src/action_target.rs:30-103 | in place: a call without target is left alone and refused only for desktop scope beside a window; a valid target is replaced by its flat fields; on refusal at most the target is gone |
| `ActionTarget.RefusedExactly` | libs/cua-driver/rust/crates/cua-driver-core/src/action_target.rs:20-101 | a call is refused if and only if something is wrong with it, and the reason given is the only one that applies: of several faults the first counts |
| `ActionTarget.TargetedToolsAre` | libs/cua-driver/rust/crates/cua-driver-core/src/action_target.rs:8-18 | the seven tools that take a typed target |
| `ActionTarget.WindowTargetAccepted` | libs/cua-driver/rust/crates/cua-driver-core/src/action_target.rs:57-84 | every window target with a non-zero 32-bit process and a non-zero 64-bit window is accepted for those tools and becomes three flat fields |
| `ActionTarget.DesktopTargetAccepted` | libs/cua-driver/rust/crates/cua-driver-core/src/action_target.rs:85-97 | so is the primary desktop, which becomes one |
| `ActionTarget.OthersRefused` | libs/cua-driver/rust/crates/cua-driver-core/src/action_target.rs:30-101 | nothing else with a target is accepted, and what is refused loses it; without a target only a desktop beside a window is refused |
| `ActionTarget.ReadTarget` | libs/cua-driver/rust/crates/cua-driver-core/src/action_target.rs:57-101 | a target gives the flat fields of a typed target if it is exactly one, and is refused otherwise |
| `ActionTarget.NormalizationIsAFunction` | libs/cua-driver/rust/crates/cua-driver-core/src/action_target.rs:30-103 | the relation that specifies the method leaves it no choice: same input, same arguments, same verdict |
| `ActionTarget.NormalizationLosesNothing` | libs/cua-driver/rust/crates/cua-driver-core/src/action_target.rs:26-103 | the call with its typed target can be rebuilt from the rewritten arguments alone |
| `ActionTarget.TypedCallsNeverCollapse` | libs/cua-driver/rust/crates/cua-driver-core/src/action_target.rs:26-103 | two typed calls rewritten to the same arguments were the same call |
| `ActionTarget.NormalizedIsFixed` | libs/cua-driver/rust/crates/cua-driver-core/src/action_target.rs:30-43 | a normalized call is unchanged by normalization for any tool, and never names the desktop and a window together |
| `ActionTarget.OtherFieldsUnchanged` | libs/cua-driver/rust/crates/cua-driver-core/src/action_target.rs:30-103 | every other field is unchanged, whether the call was accepted or refused |
| `KWinTokens.TargetApi.GetWindows` | libs/cua-driver/kwin-target-helper/kwin_target_helper.cpp:37-75 | after each call exactly the live windows hold a token, known ones the token they had, new ones a fresh one; the records list each live window in order with its token |
| `KWinTokens.TargetApi.EraseAllBut` | libs/cua-driver/kwin-target-helper/kwin_target_helper.cpp:46-52 | the erasing loop keeps exactly the entries of live windows |
| `KWinTokens.TargetApi.ListWindows` | libs/cua-driver/kwin-target-helper/kwin_target_helper.cpp:54-73 | the listing loop gives a token to every live window and to no other, and changes none that was held |
| `KWinTokens.TargetApi.TokenFor` | libs/cua-driver/kwin-target-helper/kwin_target_helper.cpp:78-86 | a window in the table keeps its token, another gets the next one and enters the table |
| `KWinTokens.TokensIdentify` | libs/cua-driver/kwin-target-helper/kwin_target_helper.cpp:88-89 | over any run of calls with at most 2^64 tokens, equal tokens mean the same window, across all snapshots |
| `KWinTokens.LiveWindowKeepsToken` | libs/cua-driver/kwin-target-helper/kwin_target_helper.cpp:46-52 | a window live in consecutive snapshots keeps its token through all of them |
| `KWinTokens.ReturningWindowGetsFreshToken` | libs/cua-driver/kwin-target-helper/kwin_target_helper.cpp:78-86 | a window absent from a snapshot returns with a token that no window, itself included, ever held |
| `KWinTokens.TokensUniqueExactly` | libs/cua-driver/kwin-target-helper/kwin_target_helper.cpp:83-83 | tokens are pairwise distinct if and only if at most 2^64 were issued: the counter wraps |
| `KWinTokens.OwnersGrow` | libs/cua-driver/kwin-target-helper/kwin_target_helper.cpp:83-84 | in every run the history of issued tokens only grows and the table always agrees with it |
| `KWinTokens.IssuedInListOrder` | libs/cua-driver/kwin-target-helper/kwin_target_helper.cpp:54-86 | of two windows that are new in a snapshot, the one listed first gets the earlier token |
| `KWinTokens.ListedAreLive` | libs/cua-driver/kwin-target-helper/kwin_target_helper.cpp:37-52 | what is listed are the clients that are not deleted |
| `KWinTokens.TokensCount` | libs/cua-driver/kwin-target-helper/kwin_target_helper.cpp:78-89 | the first token is 1, and each is one more than the one before, up to 2^64 |
| `HandleMap.HandleMap.Insert` | libs/cua-driver/python/src/cua_driver/_native.py:354-363 | the handle is the next odd number, and denotes the object |
| `HandleMap.HandleMap.Get` | libs/cua-driver/python/src/cua_driver/_native.py:365-370 | the object the handle denotes, or the invalid-handle error |
| `HandleMap.HandleMap.Clone` | libs/cua-driver/python/src/cua_driver/_native.py:372-378 | a new handle for the same object, or the error and no change |
| `HandleMap.HandleMap.Remove` | libs/cua-driver/python/src/cua_driver/_native.py:380-385 | the object the handle denoted and no entry for it any more, or the error and no change |
| `HandleMap.RunKeepsValid` | libs/cua-driver/python/src/cua_driver/_native.py:343-385 | in every run of the map handles are odd and increase, a live handle denotes what it was issued for, and one that is gone never comes back |
| `HandleMap.InsertKeepsValid` | libs/cua-driver/python/src/cua_driver/_native.py:359-363 | the handle about to be issued was never in the map |
| `HandleMap.RemovedHandleIsDead` | libs/cua-driver/python/src/cua_driver/_native.py:380-385 | after removal, through any later run, a handle denotes nothing and is below all future ones |
| `HandleMap.LiftUndoesLower` | libs/cua-driver/python/src/cua_driver/_native.py:5974-5999 | an object lowered, then lifted after any operations that leave its handle alone, is the object |
| `HandleMap.Converter.Lower` | libs/cua-driver/python/src/cua_driver/_native.py:5992-5999 | a Python object gets an odd handle that denotes it; a Rust object its clone, and the map is untouched |
| `HandleMap.Converter.Lift` | libs/cua-driver/python/src/cua_driver/_native.py:5977-5985 | an odd handle gives its object and removes exactly that entry; an even one never touches the map |
| `HandleMap.HandlesAreOdd` | libs/cua-driver/python/src/cua_driver/_native.py:343-363 | the handles are the odd numbers from 1 |
| `AsyncCall.FuturesSettleOnce` | libs/cua-driver/python/src/cua_driver/_native.py:1774-1783 | over every interleaving no future is resolved twice, none changes once it is resolved or cancelled, and setting a result never raises |
| `AsyncCall.CodesReachTheirCall` | libs/cua-driver/python/src/cua_driver/_native.py:1776-1797 | each continuation entry is taken by at most one callback, duplicates included, and the code a call resumes with came with the handle of that very poll |
| `AsyncCall.FreedExactlyOnce` | libs/cua-driver/python/src/cua_driver/_native.py:1785-1805 | at every point of every run a call was freed once if it has exited and never before; it completes at most once, and only after a READY answer to a poll of its own |
| `AsyncCall.RunKeepsInvariant` | libs/cua-driver/python/src/cua_driver/_native.py:1774-1805 | the invariant that ties calls, futures, continuation entries and scheduled jobs together holds in every run, and settled futures stay as they are |
| `AsyncCall.StepKeepsInvariant` | libs/cua-driver/python/src/cua_driver/_native.py:1774-1805 | each step of a poll, callback, scheduled job, cancellation, completion or free keeps that invariant |
| `AsyncCall.ResumeExactly` | libs/cua-driver/python/src/cua_driver/_native.py:1785-1805 | in every run, a call that awaits a result goes to completion if and only if the code is zero, and to another poll otherwise; a cancellation ends it; without a result it keeps waiting |
| `AsyncCall.PollIssues` | libs/cua-driver/python/src/cua_driver/_native.py:1785-1795 | in every run a poll issues the handle of a fresh future and awaits it |
| `AsyncCall.CallbackSchedules` | libs/cua-driver/python/src/cua_driver/_native.py:1774-1783 | in every run a callback with a live handle schedules its code for that handle's future, and a second one changes nothing |
| `AsyncCall.JobSets` | libs/cua-driver/python/src/cua_driver/_native.py:1776-1783 | in every run a scheduled job sets the result, unless the future was cancelled meanwhile |
| `AsyncCall.CancelReaches` | libs/cua-driver/python/src/cua_driver/_native.py:1785-1797 | in every run a cancellation reaches the future that is awaited, or else marks the call |
| `AsyncCall.SuccessfulCall` | libs/cua-driver/python/src/cua_driver/_native.py:1785-1805 | from any point of any run: a poll answered by its own handle with zero, a completion that succeeds, and the free return the call, with one completion and one free |
| `AsyncCall.AnsweredPoll` | libs/cua-driver/python/src/cua_driver/_native.py:1785-1797 | from any point of any run: an answer of zero takes the call to completion, any other code to its next poll |
| `AsyncCall.CompletionEnds` | libs/cua-driver/python/src/cua_driver/_native.py:1799-1805 | in every run completion, successful or not, is followed by one free and the matching outcome |
| `AsyncCall.PollFails` | libs/cua-driver/python/src/cua_driver/_native.py:1785-1805 | an exception in a poll ends the call freed and not completed |
| `AsyncCall.CancelledCall` | libs/cua-driver/python/src/cua_driver/_native.py:1785-1805 | a call cancelled while it waits ends freed and not completed, and its future stays cancelled |
| `AsyncCall.StoppedCall` | libs/cua-driver/python/src/cua_driver/_native.py:1785-1805 | a call cancelled while it runs ends so at its next poll |
| `AsyncCall.CallStarts` | libs/cua-driver/python/src/cua_driver/_native.py:1769-1785 | a new call starts out polling and changes no other |
| `RustBuffer.Builder.Write` | libs/cua-driver/python/src/cua_driver/_native_contract.py:204-213 | the bytes in the buffer are those before followed by those written, across growth |
| `RustBuffer.Builder.Reserve` | libs/cua-driver/python/src/cua_driver/_native_contract.py:197-202 | there is room for the bytes to come, and those in use are kept, given only what `reserve` promises |
| `RustBuffer.Stream.Read` | libs/cua-driver/python/src/cua_driver/_native_contract.py:140-145 | the next bytes and the offset behind them, or the past-end error and nothing consumed |
| `RustBuffer.Stream.Remaining` | libs/cua-driver/python/src/cua_driver/_native_contract.py:130-131 | the count of unread bytes |
| `Bytes.UnpackPack` | libs/cua-driver/python/src/cua_driver/_native_contract.py:204-208 | a number that fits its width is read back from its big-endian bytes |
| `Bytes.PackUnpack` | libs/cua-driver/python/src/cua_driver/_native_contract.py:133-138 | any bytes are the big-endian form of the number they are read as |
| `Codec.BigEndian` | libs/cua-driver/python/src/cua_driver/_native_contract.py:221-228 | the four bytes of an integer, most significant first, and -1 as all ones |
| `Codec.U8Undone` | libs/cua-driver/python/src/cua_driver/_native_contract.py:5296-5307 | a byte read back before any trailing bytes |
| `Codec.U8Redone` | libs/cua-driver/python/src/cua_driver/_native_contract.py:5296-5307 | a byte that was read is written as it stood |
| `Codec.I32Undone` | libs/cua-driver/python/src/cua_driver/_native_contract.py:227-228 | a signed 32-bit integer read back before any trailing bytes |
| `Codec.I32Redone` | libs/cua-driver/python/src/cua_driver/_native_contract.py:159-160 | a signed 32-bit integer that was read is written as it stood |
| `Codec.U32Undone` | libs/cua-driver/python/src/cua_driver/_native_contract.py:813-824 | an unsigned 32-bit integer read back before any trailing bytes |
| `Codec.U32Redone` | libs/cua-driver/python/src/cua_driver/_native_contract.py:813-824 | an unsigned 32-bit integer that was read is written as it stood |
| `Codec.U64Undone` | libs/cua-driver/python/src/cua_driver/_native_contract.py:1489-1500 | an unsigned 64-bit integer read back before any trailing bytes |
| `Codec.U64Redone` | libs/cua-driver/python/src/cua_driver/_native_contract.py:1489-1500 | an unsigned 64-bit integer that was read is written as it stood |
| `Codec.I64Undone` | libs/cua-driver/python/src/cua_driver/_native_contract.py:5069-5080 | a signed 64-bit integer read back before any trailing bytes |
| `Codec.F64Undone` | libs/cua-driver/python/src/cua_driver/_native_contract.py:1401-1408 | a double's bit pattern read back before any trailing bytes |
| `Codec.BoolUndone` | libs/cua-driver/python/src/cua_driver/_native_contract.py:1911-1930 | a boolean read back before any trailing bytes |
| `Codec.BoolCanonicalExactly` | libs/cua-driver/python/src/cua_driver/_native_contract.py:1920-1930 | every byte is read as a boolean, and written back as it stood if and only if it is 0 or 1 |
| `Codec.NumberAsBoolExactly` | libs/cua-driver/python/src/cua_driver/_native_contract.py:1911-1930 | a number in the place of a boolean is written as its own byte and read back as a boolean, which equals it if and only if it is 0 or 1 |
| `Codec.TextUndone` | libs/cua-driver/python/src/cua_driver/_native_contract.py:1509-1521 | a string shorter than 2^31 bytes read back before any trailing bytes |
| `Codec.TextRedone` | libs/cua-driver/python/src/cua_driver/_native_contract.py:1509-1521 | a string that was read is written as it stood: length and encoding are canonical |
| `Codec.OptionalInverse` | libs/cua-driver/python/src/cua_driver/_native_contract.py:832-849 | an optional value is read back if the converter inside it reads back |
| `Codec.OptionalCanonical` | libs/cua-driver/python/src/cua_driver/_native_contract.py:832-849 | an optional value is canonical if the converter inside it is |
| `Codec.ListInverse` | libs/cua-driver/python/src/cua_driver/_native_contract.py:1280-1295 | a list shorter than 2^31 is read back if its items are |
| `Codec.ListCanonical` | libs/cua-driver/python/src/cua_driver/_native_contract.py:1280-1295 | a list is canonical if its items are |
| `Codec.EnumInverse` | libs/cua-driver/python/src/cua_driver/_native_contract.py:775-809 | an enumeration is read back if its two tables agree |
| `Codec.EnumCanonical` | libs/cua-driver/python/src/cua_driver/_native_contract.py:775-809 | an enumeration that was read is written with the same tag |
| `Codec.LiftUndoesLower` | libs/cua-driver/python/src/cua_driver/_native_contract.py:419-431 | for every converter that reads back what it wrote, `lift` undoes `lower` and the junk check does not fire |
| `Codec.LiftExactly` | libs/cua-driver/python/src/cua_driver/_native_contract.py:79-92 | for a canonical converter a buffer lifts to a value if and only if it is what the value lowers to |
| `StateCodec.OptionalBoolUndone` | libs/cua-driver/python/src/cua_driver/_native_contract.py:2755-2778 | an optional boolean read back before any trailing bytes |
| `StateCodec.OptionalF64Undone` | libs/cua-driver/python/src/cua_driver/_native_contract.py:1410-1433 | an optional double read back before any trailing bytes |
| `StateCodec.OptionalU64Undone` | libs/cua-driver/python/src/cua_driver/_native_contract.py:2579-2602 | an optional 64-bit integer read back before any trailing bytes |
| `StateCodec.OptionalTextUndone` | libs/cua-driver/python/src/cua_driver/_native_contract.py:1747-1770 | an optional string read back before any trailing bytes |
| `StateCodec.BoundsUndone` | libs/cua-driver/python/src/cua_driver/_native_contract.py:1462-1487 | a bounds expectation, four doubles and an optional tolerance read back before any trailing bytes |
| `StateCodec.OptionalBoundsUndone` | libs/cua-driver/python/src/cua_driver/_native_contract.py:4874-4897 | an optional bounds expectation read back before any trailing bytes |
| `StateCodec.WindowUndone` | libs/cua-driver/python/src/cua_driver/_native_contract.py:4917-4933 | a window predicate read back before any trailing bytes |
| `StateCodec.OptionalWindowUndone` | libs/cua-driver/python/src/cua_driver/_native_contract.py:4935-4958 | an optional window predicate read back before any trailing bytes |
| `StateCodec.SelectorUndone` | libs/cua-driver/python/src/cua_driver/_native_contract.py:2737-2753 | an element selector read back before any trailing bytes |
| `StateCodec.ElementUndone` | libs/cua-driver/python/src/cua_driver/_native_contract.py:2807-2832 | an element predicate read back before any trailing bytes |
| `StateCodec.OptionalElementUndone` | libs/cua-driver/python/src/cua_driver/_native_contract.py:4960-4983 | an optional element predicate read back before any trailing bytes |
| `StateCodec.PredicateUndone` | libs/cua-driver/python/src/cua_driver/_native_contract.py:5003-5019 | a state predicate read back before any trailing bytes |
| `StateCodec.ListPredicateUndone` | libs/cua-driver/python/src/cua_driver/_native_contract.py:5082-5103 | the list of state predicates read back before any trailing bytes |
| `StateCodec.VerifyStateUndone` | libs/cua-driver/python/src/cua_driver/_native_contract.py:5138-5169 | a whole `VerifyStateInput` read back before any trailing bytes |
| `StateCodec.VerifyStateTail` | libs/cua-driver/python/src/cua_driver/_native_contract.py:5139-5149 | all fields but the last are read back whatever bytes stand for the last one |
| `StateCodec.VerifyStateRoundTrip` | libs/cua-driver/python/src/cua_driver/_native_contract.py:5138-5169 | `lift` undoes `lower` for the nested record, and no junk is left |
| `StateCodec.VerifyStateNotCanonical` | libs/cua-driver/python/src/cua_driver/_native_contract.py:1924-1926 | this record has several accepted encodings: any other non-zero byte for its last field lifts to the same value |
| `StateCanonical.VerifyStateExactly` | libs/cua-driver/python/src/cua_driver/_native_contract.py:5138-5169 | a buffer that lifts to a value has the length of its encoding, and is its encoding if and only if every boolean in it is written as 0 or 1 |
| `StateCanonical.BoolReads` | libs/cua-driver/python/src/cua_driver/_native_contract.py:1924-1930 | what is consumed as a boolean is what would be written if and only if it is 0 or 1 |
| `StateCanonical.OptionalReads` | libs/cua-driver/python/src/cua_driver/_native_contract.py:832-849 | the same for optional values, given it for the value inside |
| `StateCanonical.ListReads` | libs/cua-driver/python/src/cua_driver/_native_contract.py:5088-5103 | and for lists, given it for the items |
| `StateCanonical.PredicateReads` | libs/cua-driver/python/src/cua_driver/_native_contract.py:5003-5019 | and for a state predicate, whose booleans are where the fields before them end |
| `StateConverters.WriteListPredicate` | libs/cua-driver/python/src/cua_driver/_native_contract.py:5088-5093 | the loop appends the count and the items one by one, which comes to the encoding of the list |
| `StateConverters.ReadListPredicate` | libs/cua-driver/python/src/cua_driver/_native_contract.py:5095-5103 | takes a list off the stream with exactly the bytes of its encoding, or fails as the decoder does |
| `StateConverters.WriteVerifyState` | libs/cua-driver/python/src/cua_driver/_native_contract.py:5161-5169 | appends the seven fields in order, which comes to the encoding of the record |
| `StateConverters.ReadVerifyState` | libs/cua-driver/python/src/cua_driver/_native_contract.py:5139-5149 | takes the seven fields off the stream in order, with exactly the bytes of the encoding, or fails as the decoder does |
| `StateConverters.ReadPredicates` | libs/cua-driver/python/src/cua_driver/_native_contract.py:5101-5103 | the comprehension reads `count` items one after another, up to the first failure |
| `StateConverters.Lower` | libs/cua-driver/python/src/cua_driver/_native_contract.py:427-431 | the finished buffer holds exactly the encoding, and lifts back to the value |
| `StateConverters.LiftVerifyState` | libs/cua-driver/python/src/cua_driver/_native_contract.py:422-425 | the value if the stream holds it and nothing else, the junk error or the read error otherwise |
| `ActionCodec.EffectUndone` | libs/cua-driver/python/src/cua_driver/_native_contract.py:1132-1173 | the effect read back before any trailing bytes |
| `ActionCodec.EffectRedone` | libs/cua-driver/python/src/cua_driver/_native_contract.py:1132-1173 | any bytes accepted as the effect are its one encoding |
| `ActionCodec.RouteUndone` | libs/cua-driver/python/src/cua_driver/_native_contract.py:1198-1245 | the route read back before any trailing bytes |
| `ActionCodec.RouteRedone` | libs/cua-driver/python/src/cua_driver/_native_contract.py:1198-1245 | any bytes accepted as the route are its one encoding |
| `ActionCodec.DeliveryModeUndone` | libs/cua-driver/python/src/cua_driver/_native_contract.py:774-809 | the delivery mode read back before any trailing bytes |
| `ActionCodec.DeliveryModeRedone` | libs/cua-driver/python/src/cua_driver/_native_contract.py:774-809 | any bytes accepted as the delivery mode are its one encoding |
| `ActionCodec.EscalationTargetUndone` | libs/cua-driver/python/src/cua_driver/_native_contract.py:904-939 | the escalation target read back before any trailing bytes |
| `ActionCodec.EscalationTargetRedone` | libs/cua-driver/python/src/cua_driver/_native_contract.py:904-939 | any bytes accepted as the escalation target are its one encoding |
| `ActionCodec.EscalationReasonUndone` | libs/cua-driver/python/src/cua_driver/_native_contract.py:962-1003 | the escalation reason read back before any trailing bytes |
| `ActionCodec.EscalationReasonRedone` | libs/cua-driver/python/src/cua_driver/_native_contract.py:962-1003 | any bytes accepted as the escalation reason are its one encoding |
| `ActionCodec.EvidenceKindUndone` | libs/cua-driver/python/src/cua_driver/_native_contract.py:1056-1079 | the evidence kind read back before any trailing bytes |
| `ActionCodec.EvidenceKindRedone` | libs/cua-driver/python/src/cua_driver/_native_contract.py:1056-1079 | any bytes accepted as the evidence kind are its one encoding |
| `ActionCodec.OptionalU32Undone` | libs/cua-driver/python/src/cua_driver/_native_contract.py:826-849 | an optional 32-bit count read back before any trailing bytes |
| `ActionCodec.OptionalU32Redone` | libs/cua-driver/python/src/cua_driver/_native_contract.py:826-849 | any bytes accepted as an optional 32-bit count are its one encoding |
| `ActionCodec.DeliveryUndone` | libs/cua-driver/python/src/cua_driver/_native_contract.py:869-885 | a delivery read back before any trailing bytes |
| `ActionCodec.DeliveryRedone` | libs/cua-driver/python/src/cua_driver/_native_contract.py:869-885 | any bytes accepted as a delivery are its one encoding |
| `ActionCodec.OptionalDeliveryUndone` | libs/cua-driver/python/src/cua_driver/_native_contract.py:1249-1272 | an optional delivery read back before any trailing bytes |
| `ActionCodec.OptionalDeliveryRedone` | libs/cua-driver/python/src/cua_driver/_native_contract.py:1249-1272 | any bytes accepted as an optional delivery are its one encoding |
| `ActionCodec.EscalationUndone` | libs/cua-driver/python/src/cua_driver/_native_contract.py:1025-1041 | an escalation read back before any trailing bytes |
| `ActionCodec.EscalationRedone` | libs/cua-driver/python/src/cua_driver/_native_contract.py:1025-1041 | any bytes accepted as an escalation are its one encoding |
| `ActionCodec.OptionalEscalationUndone` | libs/cua-driver/python/src/cua_driver/_native_contract.py:1322-1345 | an optional escalation read back before any trailing bytes |
| `ActionCodec.OptionalEscalationRedone` | libs/cua-driver/python/src/cua_driver/_native_contract.py:1322-1345 | any bytes accepted as an optional escalation are its one encoding |
| `ActionCodec.EvidenceUndone` | libs/cua-driver/python/src/cua_driver/_native_contract.py:1098-1111 | a piece of evidence read back before any trailing bytes |
| `ActionCodec.EvidenceRedone` | libs/cua-driver/python/src/cua_driver/_native_contract.py:1098-1111 | any bytes accepted as a piece of evidence are its one encoding |
| `ActionCodec.ListEvidenceUndone` | libs/cua-driver/python/src/cua_driver/_native_contract.py:1274-1295 | a list of evidence read back before any trailing bytes |
| `ActionCodec.ListEvidenceRedone` | libs/cua-driver/python/src/cua_driver/_native_contract.py:1274-1295 | any bytes accepted as a list of evidence are its one encoding |
| `ActionCodec.OptionalListEvidenceUndone` | libs/cua-driver/python/src/cua_driver/_native_contract.py:1297-1320 | an optional list of evidence read back before any trailing bytes |
| `ActionCodec.OptionalListEvidenceRedone` | libs/cua-driver/python/src/cua_driver/_native_contract.py:1297-1320 | any bytes accepted as an optional list of evidence are its one encoding |
| `ActionCodec.ResultUndone` | libs/cua-driver/python/src/cua_driver/_native_contract.py:1374-1399 | an action result read back before any trailing bytes |
| `ActionCodec.ResultRedone` | libs/cua-driver/python/src/cua_driver/_native_contract.py:1374-1399 | any bytes accepted as an action result are its one encoding |
| `ActionCodec.TargetUndone` | libs/cua-driver/python/src/cua_driver/_native_contract.py:1627-1661 | a tagged action target read back before any trailing bytes |
| `ActionCodec.TargetRedone` | libs/cua-driver/python/src/cua_driver/_native_contract.py:1627-1661 | any bytes accepted as a tagged action target are its one encoding |
| `ActionConverters.WriteListEvidence` | libs/cua-driver/python/src/cua_driver/_native_contract.py:1280-1285 | the loop appends the count and the items one by one, which comes to the encoding of the list |
| `ActionConverters.ReadListEvidence` | libs/cua-driver/python/src/cua_driver/_native_contract.py:1287-1295 | takes a list off the stream with exactly the bytes of its encoding, or fails as the decoder does |
| `ActionConverters.WriteResult` | libs/cua-driver/python/src/cua_driver/_native_contract.py:1393-1399 | appends the five fields in order, which comes to the encoding of the result |
| `ActionConverters.ReadResult` | libs/cua-driver/python/src/cua_driver/_native_contract.py:1375-1383 | takes the five fields off the stream in order, with exactly the bytes of the encoding, or fails as the decoder does |
| `ActionConverters.WriteTarget` | libs/cua-driver/python/src/cua_driver/_native_contract.py:1653-1661 | appends the tag and the fields of the variant, which comes to the encoding of the target |
| `ActionConverters.ReadTarget` | libs/cua-driver/python/src/cua_driver/_native_contract.py:1628-1640 | reads the variant its tag names, or refuses an unknown tag |
| `ActionConverters.ReadEvidences` | libs/cua-driver/python/src/cua_driver/_native_contract.py:1293-1295 | the comprehension reads `count` items one after another, up to the first failure |
| `ActionConverters.LowerResult` | libs/cua-driver/python/src/cua_driver/_native_contract.py:427-431 | the finished buffer is the one and only buffer that lifts to the action result |
| `ActionConverters.LiftResult` | libs/cua-driver/python/src/cua_driver/_native_contract.py:422-425 | the value if the stream holds it and nothing else, and then the buffer is the one the value lowers to; the junk or read error otherwise |
| `ActionConverters.LowerTarget` | libs/cua-driver/python/src/cua_driver/_native_contract.py:427-431 | the finished buffer is the one and only buffer that lifts to the action target |
| `ActionConverters.LiftTarget` | libs/cua-driver/python/src/cua_driver/_native_contract.py:422-425 | the value if the stream holds it and nothing else, and then the buffer is the one the value lowers to; the junk or read error otherwise |
| `ActionCodec.ActionResultExactly` | libs/cua-driver/python/src/cua_driver/_native_contract.py:1374-1399 | a buffer lifts to an action result if and only if it is what the result lowers to: no two accepted buffers carry equal results |
| `ActionCodec.ActionTargetExactly` | libs/cua-driver/python/src/cua_driver/_native_contract.py:1627-1661 | the same for action targets |
| `Utf8.WellFormedExactly` | libs/cua-driver/python/src/cua_driver/_native_contract.py:1506-1515 | a byte string is well-formed text if and only if it is the concatenation of the encodings of Unicode scalar values, by their bit groups |
| `Utf8.EveryTextIsRead` | libs/cua-driver/python/src/cua_driver/_native_contract.py:1506-1515 | every such text shorter than 2^31 bytes is written, and read back |
| `WireFormat.U64Format` | libs/cua-driver/python/src/cua_driver/_native_contract.py:1489-1500 | a 64-bit number is its eight bytes, most significant first |
| `WireFormat.I64Format` | libs/cua-driver/python/src/cua_driver/_native_contract.py:5069-5080 | a signed one its two's complement |
| `WireFormat.OptionalFormat` | libs/cua-driver/python/src/cua_driver/_native_contract.py:832-849 | an optional value is the byte 0, or the byte 1 and the value |
| `WireFormat.BoolFormat` | libs/cua-driver/python/src/cua_driver/_native_contract.py:1920-1930 | a boolean is the byte 0 or 1 |
| `WireFormat.TextFormat` | libs/cua-driver/python/src/cua_driver/_native_contract.py:1509-1521 | a string is its length in four bytes and then itself |
| `WireFormat.ItemsFormat` | libs/cua-driver/python/src/cua_driver/_native_contract.py:1280-1285 | a list is its length in four bytes and the items in order |
| `WireFormat.EffectFormat` | libs/cua-driver/python/src/cua_driver/_native_contract.py:1132-1173 | the number of each effect |
| `WireFormat.RouteFormat` | libs/cua-driver/python/src/cua_driver/_native_contract.py:1198-1245 | the number of each route |
| `WireFormat.DeliveryModeFormat` | libs/cua-driver/python/src/cua_driver/_native_contract.py:774-809 | the number of each delivery mode |
| `WireFormat.EscalationTargetFormat` | libs/cua-driver/python/src/cua_driver/_native_contract.py:904-939 | the number of each escalation target |
| `WireFormat.EscalationReasonFormat` | libs/cua-driver/python/src/cua_driver/_native_contract.py:962-1003 | the number of each escalation reason |
| `WireFormat.EvidenceKindFormat` | libs/cua-driver/python/src/cua_driver/_native_contract.py:1056-1079 | the number of each kind of evidence |
| `WireFormat.EscalationFormat` | libs/cua-driver/python/src/cua_driver/_native_contract.py:1025-1041 | an escalation is target, then reason |
| `WireFormat.DeliveryFormat` | libs/cua-driver/python/src/cua_driver/_native_contract.py:869-885 | a delivery is mode, then count |
| `WireFormat.EvidenceFormat` | libs/cua-driver/python/src/cua_driver/_native_contract.py:1098-1111 | a piece of evidence is its kind |
| `WireFormat.ResultFormat` | libs/cua-driver/python/src/cua_driver/_native_contract.py:1374-1399 | a result is effect, route, delivery, evidence and escalation in this order |
| `WireFormat.WindowTargetFormat` | libs/cua-driver/python/src/cua_driver/_native_contract.py:1627-1661 | a window target is 1, process, window |
| `WireFormat.DesktopTargetFormat` | libs/cua-driver/python/src/cua_driver/_native_contract.py:1627-1661 | a desktop target is 2 and the display |
| `WireFormat.BoundsFormat` | libs/cua-driver/python/src/cua_driver/_native_contract.py:1462-1487 | bounds are x, y, width, height and tolerance in this order |
| `WireFormat.SelectorFormat` | libs/cua-driver/python/src/cua_driver/_native_contract.py:2737-2753 | a selector is role, then label |
| `WireFormat.ElementFormat` | libs/cua-driver/python/src/cua_driver/_native_contract.py:2807-2832 | an element is selector, presence, value, enabled, selected in this order |
| `WireFormat.WindowFormat` | libs/cua-driver/python/src/cua_driver/_native_contract.py:4917-4933 | a window predicate is presence, then bounds |
| `WireFormat.PredicateFormat` | libs/cua-driver/python/src/cua_driver/_native_contract.py:5003-5019 | a state predicate is window, then element |
| `WireFormat.VerifyStateFormat` | libs/cua-driver/python/src/cua_driver/_native_contract.py:5138-5169 | the seven fields of the record in order |
| `WireFormat.RefusalFormat` | libs/cua-driver/python/src/cua_driver/_native_contract.py:140-160 | which error is raised for bytes that run out, a negative length, bytes that are no text, a flag above one, an unknown variant, and bytes left over |
| `ControlSocket.Conn.Readable` | nix/cua-driver/compositor/cua_compositor_patch.py:655-716 | a read of any size leaves the session and the unfinished line that receiving those bytes one line at a time gives; hang-up, end of file and a full buffer close |
| `ControlSocket.Conn.Drain` | nix/cua-driver/compositor/cua_compositor_patch.py:661-711 | the loop over the buffer serves the complete lines of what was received, in order, and points at the incomplete one |
| `ControlSocket.Conn.DrainOne` | nix/cua-driver/compositor/cua_compositor_patch.py:662-710 | one round of it: one line served, the rest of the buffer as it was |
| `ControlSocket.Conn.Append` | nix/cua-driver/compositor/cua_compositor_patch.py:658-660 | the new bytes come behind the pending ones and leave room for the final zero |
| `ControlSocket.Conn.TakeLine` | nix/cua-driver/compositor/cua_compositor_patch.py:662-665 | the line as a C string, a carriage return trimmed; nothing behind the line changes |
| `ControlSocket.Conn.ServeText` | nix/cua-driver/compositor/cua_compositor_patch.py:666-709 | the handshake, a refusal, or the command with its reply after the flush |
| `ControlSocket.Conn.Compact` | nix/cua-driver/compositor/cua_compositor_patch.py:712-713 | the incomplete line is moved to the front |
| `ControlSocket.Conn.Find` | nix/cua-driver/compositor/cua_compositor_patch.py:662-662 | the first newline among the bytes received |
| `ControlSocket.Conn.CString` | nix/cua-driver/compositor/cua_compositor_patch.py:662-668 | the bytes up to the first zero |
| `ControlSocket.ChunkingIndependence` | nix/cua-driver/compositor/cua_compositor_patch.py:655-716 | for every stream and every way it is cut into reads, the lines served are its newline-terminated lines before the first one that does not fit the buffer |
| `ControlSocket.ServeAppend` | nix/cua-driver/compositor/cua_compositor_patch.py:662-711 | serving lines composes: what is served later starts from where the session was left |
| `ControlSocket.LinesAppend` | nix/cua-driver/compositor/cua_compositor_patch.py:661-713 | the complete lines of a stream are those of its front, then those of the unfinished line with the rest |
| `ControlSocket.FittingAppend` | nix/cua-driver/compositor/cua_compositor_patch.py:658-659 | which lines fit can be told piece by piece |
| `ControlSocket.FullBufferFitsNothing` | nix/cua-driver/compositor/cua_compositor_patch.py:658-659 | an unfinished line that fills the buffer belongs to no fitting line, however the stream goes on |
| `ControlSocket.CStringIsText` | nix/cua-driver/compositor/cua_compositor_patch.py:663-665 | writing a zero over a trailing carriage return trims exactly it |
| `ControlSocket.SessionProtocol` | nix/cua-driver/compositor/cua_compositor_patch.py:666-709 | in every session nothing is carried out before the banner matched, each served line has one reply, `ok` follows only the carried-out command and its flush, and after a refusal there is nothing |
| `ControlSocket.ServedInOrder` | nix/cua-driver/compositor/cua_compositor_patch.py:675-709 | after the handshake the log grows by the exchange of each line in order: the line carried out in the state the lines before it left, the flush, the reply |
| `ControlSocket.SessionTranscript` | nix/cua-driver/compositor/cua_compositor_patch.py:666-709 | a session from its beginning is the echo or the refusal followed by those exchanges, and its k-th reply answers its k-th line |
| `ControlSocket.ConnectionProtocol` | nix/cua-driver/compositor/cua_compositor_patch.py:647-716 | a connection, under any delivery of any stream, does exactly what the transcript of the fitting lines says, with one reply to each |
| `ControlSocket.ConnectionReplies` | nix/cua-driver/compositor/cua_compositor_patch.py:655-716 | the replies of a connection are the echo and one to each line after it, in order |
| `ControlSocket.ServeLineKeeps` | nix/cua-driver/compositor/cua_compositor_patch.py:666-709 | serving one line keeps handshake-first and ok-means-done, and extends the log by one reply |
| `ControlSocket.SessionAnswers` | nix/cua-driver/compositor/cua_compositor_patch.py:675-709 | in every session what came of a line is what it is answered with: a query by its report or error at once, a command by `ok` or its error after the flush |
| `ControlSocket.LinesJoin` | nix/cua-driver/compositor/cua_compositor_patch.py:661-713 | the lines of a stream, each with its newline, and what follows them are the stream |
| `ControlSocket.LinesHaveNoNewline` | nix/cua-driver/compositor/cua_compositor_patch.py:661-662 | no line, and not the rest, has a newline in it |
| `ControlSocket.FittingExactly` | nix/cua-driver/compositor/cua_compositor_patch.py:647-659 | the lines served are those before the first of more than 16382 bytes |
| `ControlSocket.TextExactly` | nix/cua-driver/compositor/cua_compositor_patch.py:663-668 | a line without zeros is its own text but for one carriage return at its end; a zero ends the text |
| `ControlSocket.HelloIs` | nix/cua-driver/compositor/cua_compositor_patch.py:666-673 | the handshake is `cua-inject v1` |
| `ControlSocket.OnlyHangUpCloses` | nix/cua-driver/compositor/cua_compositor_patch.py:649-659 | a hang-up, end of file or a full buffer closes a connection and changes nothing else; bytes never close one past its handshake |
| `Targets.PidInFamily` | nix/cua-driver/compositor/cua_compositor_patch.py:151-172 | true exactly when the root is the process or one of its first 64 ancestors along valid parent links above process 1 |
| `Targets.ResolveTarget` | nix/cua-driver/compositor/cua_compositor_patch.py:177-209 | gives a window if and only if it is the only one that matches the address; malformed, unknown and ambiguous addresses are told apart |
| `Targets.PidAddressExactly` | nix/cua-driver/compositor/cua_compositor_patch.py:191-200 | among windows with real process ids a `pid:` number addresses exactly the process it names if and only if it fits a `pid_t` or the cast makes it negative, so that it addresses nobody |
| `Targets.RootAddressExactly` | nix/cua-driver/compositor/cua_compositor_patch.py:180-190 | a `root:` number addresses exactly the family of the process it names if and only if it fits or the cast leaves no positive id |
| `Targets.WrappedPidCounterexample` | nix/cua-driver/compositor/cua_compositor_patch.py:180-200 | 2^32 + 5 addresses the window of process 5, in both forms |
| `Targets.FamilyIsAChain` | nix/cua-driver/compositor/cua_compositor_patch.py:151-172 | a process belongs to a family if and only if a chain of at most 64 parents leads from it to the root, none of them past process 1 or its own parent |
| `Targets.AddressMeans` | nix/cua-driver/compositor/cua_compositor_patch.py:177-209 | what each form of address asks for, and which addresses are refused unread |
| `Compositor.Compositor.PointerLeaves` | nix/cua-driver/compositor/cua_compositor_patch.py:275-282 | a leave goes to the surface's client if it has a pointer, and to nobody without a surface |
| `Compositor.Compositor.Motion` | nix/cua-driver/compositor/cua_compositor_patch.py:288-342 | state and events of a motion: enter once, leave the old surface first, seat notifications for device 0 (the method refines its step function) |
| `Compositor.Compositor.NotifySeat` | nix/cua-driver/compositor/cua_compositor_patch.py:321-330 | enter, motion and frame through the seat, whose pointer focus moves |
| `Compositor.Compositor.DesktopMotion` | nix/cua-driver/compositor/cua_compositor_patch.py:345-361 | state and events of a desktop-scope motion of device 0 |
| `Compositor.Compositor.Button` | nix/cua-driver/compositor/cua_compositor_patch.py:362-384 | events of a button, to the entered surface |
| `Compositor.Compositor.Axis` | nix/cua-driver/compositor/cua_compositor_patch.py:385-404 | events of a scroll, to the entered surface |
| `Compositor.Compositor.Clicks` | nix/cua-driver/compositor/cua_compositor_patch.py:599-602 | the click loop presses and releases as often as asked, up to the first failure |
| `Compositor.Compositor.EnterKeyboard` | nix/cua-driver/compositor/cua_compositor_patch.py:456-478 | keymap and enter go to a background target once, not to one that has the focus |
| `Compositor.Compositor.Key` | nix/cua-driver/compositor/cua_compositor_patch.py:496-507 | a key goes through the seat for the focused target, straight to the client otherwise |
| `Compositor.Compositor.Strike` | nix/cua-driver/compositor/cua_compositor_patch.py:514-515 | a press and a release |
| `Compositor.Compositor.TypeChar` | nix/cua-driver/compositor/cua_compositor_patch.py:508-518 | one character under its shift level, or nothing at all if it has no key or there is no keyboard |
| `Compositor.Compositor.TypeHex` | nix/cua-driver/compositor/cua_compositor_patch.py:520-528 | the loop over hex digits types up to the first failure |
| `Compositor.Compositor.NamedKey` | nix/cua-driver/compositor/cua_compositor_patch.py:550-559 | the three outcomes of a named key |
| `Compositor.Compositor.Hotkey` | nix/cua-driver/compositor/cua_compositor_patch.py:560-585 | the mask of all modifiers around one key press, or one of two failures with nothing sent |
| `Compositor.Compositor.HandleCommand` | nix/cua-driver/compositor/cua_compositor_patch.py:590-646 | new state, events and error token of every command (the method refines its step function) |
| `Compositor.Compositor.HandleTargeted` | nix/cua-driver/compositor/cua_compositor_patch.py:604-644 | the same once the window is resolved |
| `Compositor.Compositor.ResolveAddress` | nix/cua-driver/compositor/cua_compositor_patch.py:177-209 | the resolved window, or the reason there is none |
| `Compositor.Compositor.Focus` | nix/cua-driver/compositor/cua_compositor_patch.py:88-99 | focus, and the activation announced the first time |
| `Compositor.Compositor.FocusSeat` | nix/cua-driver/compositor/cua_compositor_patch.py:88-99 | the seat leaves the surface that had the focus and enters the one that gets it |
| `Compositor.Compositor.ForgetSurface` | nix/cua-driver/compositor/cua_compositor_patch.py:814-820 | the loop over the devices forgets what they had entered of the window |
| `Compositor.Compositor.LeaveSeat` | nix/cua-driver/compositor/cua_compositor_patch.py:814-823 | how the seat is left when a window is gone |
| `Compositor.Compositor.MaybeFocusNew` | nix/cua-driver/compositor/cua_compositor_patch.py:104-123 | the family test decides whether a new window gets the focus |
| `Compositor.Compositor.MapToplevel` | nix/cua-driver/compositor/cua_compositor_patch.py:799-811 | a mapped window is listed, and focused if it may be |
| `Compositor.Compositor.ActivatePid` | nix/cua-driver/compositor/cua_compositor_patch.py:219-232 | the only window of a process is focused; none and several are refused |
| `Compositor.Compositor.UnmapToplevel` | nix/cua-driver/compositor/cua_compositor_patch.py:814-823 | devices, windows and seat after a window went away (the method refines its step function) |
| `StepEffects.CommandTypes` | nix/cua-driver/compositor/cua_compositor_patch.py:456-585 | a typing command, accepted or not, either changes nothing or greets the window unless it is taken as entered, and then only speaks to its keyboard |
| `StepEffects.ClicksClick` | nix/cua-driver/compositor/cua_compositor_patch.py:599-602 | clicks of device 0 send buttons through the seat and change nothing else |
| `Delivery.MotionDelivers` | nix/cua-driver/compositor/cua_compositor_patch.py:288-342 | what `CommandStep` does for a motion on any device: accepted if and only if there is the device, something under the point and a pointer; one motion with the point in the surface hit, or else in the window and as commanded; for device 0 the enter has the same point |
| `Delivery.ClickDelivers` | nix/cua-driver/compositor/cua_compositor_patch.py:362-404 | a button or scroll goes as commanded to the surface the device is on, or else to the window, or through the seat; accepted if and only if it has a pointer |
| `Delivery.DesktopClickDelivers` | nix/cua-driver/compositor/cua_compositor_patch.py:595-603 | a click in desktop scope enters the point hit, moves there, and presses and releases as often as asked, at least once |
| `Delivery.NamedKeyDelivers` | nix/cua-driver/compositor/cua_compositor_patch.py:550-559 | a named key is pressed and released once, behind an enter at most; both refusals change nothing |
| `Delivery.HotkeyDelivers` | nix/cua-driver/compositor/cua_compositor_patch.py:560-585 | a hotkey is its key pressed and released between the least mask that has all its modifiers and none |
| `Delivery.MaskIsLeast` | nix/cua-driver/compositor/cua_compositor_patch.py:568-576 | the mask of a hotkey has the bits of each modifier and no others |
| `Delivery.TextAnsweredExactly` | nix/cua-driver/compositor/cua_compositor_patch.py:520-528 | a text is refused if and only if it is empty, or one of the characters the scan keeps has no key, or there is no keyboard; and with which token |
| `Delivery.ResolvedExactly` | nix/cua-driver/compositor/cua_compositor_patch.py:177-209 | a window is found if and only if it is the only one that matches; malformed, unmatched and ambiguous addresses are refused each for its own reason |
| `Delivery.OthersRefused` | nix/cua-driver/compositor/cua_compositor_patch.py:590-646 | what is no command, and what finds no window, changes nothing and is refused for that reason |
| `Delivery.ActivationExactly` | nix/cua-driver/compositor/cua_compositor_patch.py:219-232 | a process is activated if and only if it has exactly one window; none and several are told apart |
| `Delivery.ActivationTells` | nix/cua-driver/compositor/cua_compositor_patch.py:88-99 | the events of giving a window the focus, in order |
| `Delivery.MappingLists` | nix/cua-driver/compositor/cua_compositor_patch.py:799-811 | a mapped window comes first in the list |
| `Delivery.FamilyGetsFocus` | nix/cua-driver/compositor/cua_compositor_patch.py:104-123 | a mapped window gets the focus if a chain of at most 64 parents leads from its process to that of the window that has it or back, and otherwise not |
| `Delivery.UnmapTellsClients` | nix/cua-driver/compositor/cua_compositor_patch.py:814-823 | the events of an unmap, in order |
| `Delivery.UnmapForgets` | nix/cua-driver/compositor/cua_compositor_patch.py:814-823 | devices and keyboards lose exactly the surfaces of a window that goes away, and the list exactly the window |
| `PointerDiscipline.PointerDiscipline` | nix/cua-driver/compositor/cua_compositor_patch.py:275-404 | in every run, for each device above 0: a motion follows an enter of its surface with no leave between, a new enter follows a leave or an unmap, and the array names the surface the events put the device on |
| `PointerDiscipline.StepKeepsDiscipline` | nix/cua-driver/compositor/cua_compositor_patch.py:288-404 | each command, mapping, focus change and unmap keeps it |
| `PointerDiscipline.ClickFollowsEnterExactly` | nix/cua-driver/compositor/cua_compositor_patch.py:362-384 | a click of a direct device goes to a surface that its clients know to be entered if and only if the device is on one |
| `PointerDiscipline.InitiallyDisciplined` | nix/cua-driver/compositor/cua_compositor_patch.py:275-287 | the compositor starts that way |
| `PointerTargets.DevicesAreIndependent` | nix/cua-driver/compositor/cua_compositor_patch.py:283-287 | a command on one device leaves every other device where it is and sends nothing for it |
| `PointerTargets.ClickReachesTargetExactly` | nix/cua-driver/compositor/cua_compositor_patch.py:362-404 | a button or a scroll addressed to a window and answered with `ok` has one recipient, which is a surface of the window if and only if, for the buttons of device 0, the seat points at one, and otherwise the device is on none or on one of its own; a refused one has no recipient |
| `PointerTargets.ClickOnNobody` | nix/cua-driver/compositor/cua_compositor_patch.py:369-376 | a click of device 0 on the first window mapped, without a motion before it, is answered with `ok` and nobody receives it |
| `PointerTargets.DesktopClickReachesPoint` | nix/cua-driver/compositor/cua_compositor_patch.py:595-603 | every press and release of a click in desktop scope is received by the surface under the point |
| `PointerTargets.SeatFocusIsLastEntered` | nix/cua-driver/compositor/cua_compositor_patch.py:321-330 | in every run the seat points at the surface of the last enter it was sent, unless an unmap cleared it since |
| `PointerTargets.SeatAgreement` | nix/cua-driver/compositor/cua_compositor_patch.py:321-330 | in every run device 0 and the seat never point at different surfaces, though either may point nowhere |
| `PointerTargets.ClickOnWrongWindow` | nix/cua-driver/compositor/cua_compositor_patch.py:362-384 | a device moved onto one window clicks there when another is addressed |
| `PointerTargets.DevicesStayOnWindows` | nix/cua-driver/compositor/cua_compositor_patch.py:814-823 | in every run in which the scene answers with surfaces and popups of the window asked about, no device is on a surface of a window that is gone; popups, whose root is no window, are the exception |
| `PointerTargets.UnmapForgetsExactly` | nix/cua-driver/compositor/cua_compositor_patch.py:816-820 | after a motion onto a surface of a window, unmapping it clears the device if and only if the surface's root is the window's own: popups are not forgotten |
| `PointerTargets.PopupCounterexample` | nix/cua-driver/compositor/cua_compositor_patch.py:816-820 | a run of three steps after which no window is left and a device is still on a popup |
| `PointerTargets.OtherCommandsKeepPointers` | nix/cua-driver/compositor/cua_compositor_patch.py:362-646 | every command but a motion and a desktop click leaves all devices and the list of windows as they are |
| `FocusSafety.InjectionKeepsFocus` | nix/cua-driver/compositor/cua_compositor_patch.py:590-646 | no injected command, whatever its outcome, changes the keyboard focus, the windows or their activation |
| `FocusSafety.MappingMovesFocusExactly` | nix/cua-driver/compositor/cua_compositor_patch.py:100-123 | mapping gives a window the focus exactly if nobody has it or a window of its process family does |
| `FocusSafety.FocusIsNotStolen` | nix/cua-driver/compositor/cua_compositor_patch.py:100-123 | in every run of injected commands, windows mapped by unrelated processes, and activations that are refused, the focus stays where it was |
| `FocusSafety.ActivationsHappenOnce` | nix/cua-driver/compositor/cua_compositor_patch.py:780-790 | in every run each window is told at most once that it is active, and the flag says exactly which were |
| `FocusSafety.FocusingActivates` | nix/cua-driver/compositor/cua_compositor_patch.py:88-99 | focusing a window gives it the focus and sees to it that it was told, unless upstream returns early |
| `KeyboardProtocol.StepKeepsProtocolExactly` | nix/cua-driver/compositor/cua_compositor_patch.py:88-128 | for every client and every step - typing, activation, mapping, unmapping - the enter, leave and key events sent so far stay in order if and only if they were, and typing finds the client entered on the window just when the array or the focus says so and nowhere else otherwise, or the focus leaves the client where it was entered and enters it only if it is nowhere |
| `KeyboardProtocol.RunKeepsProtocolExactly` | nix/cua-driver/compositor/cua_compositor_patch.py:456-507 | a whole run keeps the protocol of a client if and only if each of its steps meets that condition when it is taken |
| `KeyboardProtocol.TrackIsLastWord` | nix/cua-driver/compositor/cua_compositor_patch.py:456-478 | where a client is entered is the last thing it was told about it, a condition on the history alone |
| `KeyboardProtocol.ForegroundTypingKeepsProtocol` | nix/cua-driver/compositor/cua_compositor_patch.py:456-466 | a run that types only into the window with the focus keeps the protocol of every client |
| `KeyboardProtocol.EnteredTwiceCounterexample` | nix/cua-driver/compositor/cua_compositor_patch.py:467-476 | a run from the start: keys for two windows behind a third and one for the first again enter the first one twice |
| `KeyboardProtocol.KeyAfterLeaveCounterexample` | nix/cua-driver/compositor/cua_compositor_patch.py:460-466 | a run from the start: a window is typed into while it has the focus, the focus moves, and the next key reaches it without an enter |
| `KeyboardProtocol.ActivatedAfterKeyCounterexample` | nix/cua-driver/compositor/cua_compositor_patch.py:88-99 | a run from the start: a window is typed into in the background and then activated, which enters it again |
| `CompositorSession.CarryOutRuns` | nix/cua-driver/compositor/cua_compositor_patch.py:675-709 | carrying out a line is running the steps it asks for, and its reply is `ok` if and only if they succeed |
| `CompositorSession.ReplyIsOkExactly` | nix/cua-driver/compositor/cua_compositor_patch.py:688-709 | the k-th reply is `ok` if and only if the k-th line is a command or an activation that succeeds in the state the lines before it led to |
| `CompositorSession.ConnectionAnswersExactly` | nix/cua-driver/compositor/cua_compositor_patch.py:655-716 | the same for a connection from its beginning, under any delivery of any stream |
| `CompositorSession.FirstLineServedExactly` | nix/cua-driver/compositor/cua_compositor_patch.py:658-662 | a line at the front of a stream is served if and only if it fits the buffer |
| `CompositorSession.TypeLineServedExactly` | nix/cua-driver/compositor/cua_compositor_patch.py:616-621 | the line of a text is served if and only if it fits the buffer, which it never does from 8190 characters on |
| `CompositorSession.LongLineIsDropped` | nix/cua-driver/compositor/cua_compositor_patch.py:658-659 | a line that does not fit, and all that follows it, leaves the session as it was: there is no reply |
| `Typing.LongTextIsCutExactly` | nix/cua-driver/compositor/cua_compositor_patch.py:616-621 | the command to type a typable text succeeds and is read up to the limit of the scan: all of it if and only if it has at most 4095 characters; an empty text is refused with `bad-args` |
| `Typing.BuildTable` | nix/cua-driver/compositor/cua_compositor_patch.py:428-443 | the table names for each character the first key in scan order that gives it alone, and for line feed and tab their dedicated keys |
| `Typing.DecodeInvertsTable` | nix/cua-driver/compositor/cua_compositor_patch.py:428-443 | reading a table entry through the layout gives its character back if and only if its key is not one of the two dedicated ones |
| `Typing.HexRoundTrip` | nix/cua-driver/compositor/cua_compositor_patch.py:523-525 | the digit arithmetic, on signed characters, reads back every byte from its two hex digits |
| `Typing.TypeHexOfText` | nix/cua-driver/compositor/cua_compositor_patch.py:520-528 | typing a hex-encoded text is typing its characters in order |
| `Typing.TypedTextIsRead` | nix/cua-driver/compositor/cua_compositor_patch.py:508-528 | a typable text is typed to its end and read by the client one character a key press, with no key or modifier left down |
| `Typing.TypingInvertsKeymap` | nix/cua-driver/compositor/cua_compositor_patch.py:508-528 | the client reads exactly the text that was sent if and only if none of its characters shares its key with line feed or tab; in either case no key or modifier stays down |
| `Typing.EchoExactly` | nix/cua-driver/compositor/cua_compositor_patch.py:428-443 | what is read equals the text if and only if all its keys are ordinary |
| `Typing.TypingStopsAtFirstUntypable` | nix/cua-driver/compositor/cua_compositor_patch.py:520-528 | before a character without a key exactly the text in front of it has been emitted, and the command fails |
| `Typing.ReturnCounterexample` | nix/cua-driver/compositor/cua_compositor_patch.py:428-443 | on a layout whose only key gives a carriage return, that character is typed and read as a line feed |
| `Typing.HotkeyPressesUnderModifiers` | nix/cua-driver/compositor/cua_compositor_patch.py:568-583 | a delivered hotkey presses its key once, with the mask of its modifiers in force, which has the bits of each of them |
| `Typing.HotkeyIsReleased` | nix/cua-driver/compositor/cua_compositor_patch.py:560-585 | a delivered hotkey reads as the character of its key, shifted if its mask has the shift bits, and nothing stays down |
| `Typing.TableTakesFirst` | nix/cua-driver/compositor/cua_compositor_patch.py:428-443 | which key the table names, told by keys of the layout alone |
| `Typing.TypableExactly` | nix/cua-driver/compositor/cua_compositor_patch.py:428-443 | which characters can be typed at all: line feed, tab, and the ASCII characters but zero that some key gives by itself |
| `Typing.DigitValue` | nix/cua-driver/compositor/cua_compositor_patch.py:523-525 | the value of each hexadecimal digit, in either case |
| `Typing.AnyDigitValue` | nix/cua-driver/compositor/cua_compositor_patch.py:523-525 | what the digit arithmetic makes of any byte, on signed characters |
| `Typing.NoDigitNoCharacter` | nix/cua-driver/compositor/cua_compositor_patch.py:508-525 | a byte below the digits, or from 128 on, in the place of a digit types nothing |
| `Typing.DigitsMakeByte` | nix/cua-driver/compositor/cua_compositor_patch.py:523-525 | two digits make a byte, the first one its upper half |

## Left out

- CompatibilitySoundness.SchemaSubsetViolations: the implication is stated in one direction, since the checker is meant to refuse more than it must; what is passed over at a node, and each condition alone, are stated in both directions by `NodeExact` and in `CompatibilityConditions`.
- CompatibilitySoundness.Soundness: likewise assumes all conditions together; a report can be empty and the implication hold without them.
- CompatibilityConditions.TypedListExact: takes a value that the portable schema accepts, a fraction if its type is number; whether there is one is as hard as satisfying a schema. The same goes for `ConstAndEnumExact`, `OpenObjectExact` and `AdditionalSchemaExact`.
- CompatibilityConditions.RestExact: says nothing of portable nodes with a `const` or an `enum`, which fix the objects they accept.
- CompatibilityConditions.MinimumExact: speaks, like `MaximumExact` and the two lemmas on lengths, of schemas with a single bound; `NodeExact` is about bounds that floats order as they are.
- CompatibilityConditions.OpenObjectExact: reads the undeclared properties as schemas of the dialect; `OpenObjectMeaning` does not.
- HandleMap.LiftUndoesLower: speaks of the specification of the map; `Converter.Lower` and `Converter.Lift` tie the code to it.
- PointerDiscipline.PointerDiscipline: speaks of the devices above 0, which send enter and leave themselves; device 0 leaves that to the seat.
- KeyboardProtocol.StepKeepsProtocolExactly: takes windows and the keyboard focus to be root surfaces, as those of toplevels are; likewise the run lemmas on top of it.
- Typing.TypingInvertsKeymap: assumes that the shift modifier has a non-zero mask, as the initial mask and a valid index both give.
- The text of violations and of errors: a violation is its kind, the values it names and its path, and how often or in which order violations are listed is not stated.
- Numbers that the JSON parser reads as floats are real numbers; rounding is modelled for the conversion of integers in `as_f64`, to nearest with ties to even.
- Conflicting keys, comments and other matters of parsing JSON text.
- The other generated records, their `check_lower` messages and the TypeScript bindings.
- What a builder holds when a converter raises in the middle of a write.
- Codec.NumberAsBoolExactly: a number in the place of a boolean is stated for one byte; larger ones make the write raise, and an integer in the place of a double, which passes and is rounded, is not modelled.
- Strings are their UTF-8 bytes and doubles their bit patterns; the decoding of either into Python values.
- Locks of the handle map, and handles beyond 64 bits.
- Reading and writing an object reference inside a buffer. `DriverAuthorizationHost` has the same converter as `DriverActivityObserver`, and its own handle map.
- A poll and the insertion of its continuation are one step; futures of other libraries and exceptions from `lift_func` are ways for the call to end.
- Window attributes other than the identity in KWin's records.
- Parsing of command lines (`sscanf`, `strtol`, `strcasecmp`, `strtok_r`): a command is its parsed arguments, a line parser is a parameter, and the names of keys are a function of the environment.
- What the queries `q` and `g` report; they change nothing, and their replies are functions of the state.
- Between the lines of one connection windows may come and go; `CompositorSession` is about connections during which they do not.
- The flush after each read, and writes of a reply that fail.
- Several pointers or keyboards of one client are one event; timestamps, serials and fixed-point coordinates.
- The process table is read as one snapshot; which clients have a pointer or a keyboard is fixed during a run.
- wlroots and tinywl: stacking order, the list order after a focus change, grabs and hardware pointers that move the seat's pointer focus, and how the seat is left after an unmap (its keyboard focus, and whether its pointer focus is cleared), which are parameters. Whether upstream's focus helper returns early for the focused surface is a flag of the environment.
- The GNOME extension, the cursor gallery, build scripts and examples.
