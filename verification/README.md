# Sharecode backend core, modelled in Dafny

This project models three small, pure pieces of logic from the Sharecode
backend, a service for sharing code snippets.

- **Snippet access evaluator** (`SnippetAccessPermission`, in
  `snippet_access.dfy`).
  Three raw grants (read, write, manage) are turned into a capability
  hierarchy: Manage implies Write, and Write implies Read. The evaluator
  answers `Any`/`All` queries over a list of requested capabilities. It also
  projects the raw grants into the access-control record.
- **User aggregate** (`Profile`, in `user.dfy`). It has two independent
  flags, email verified and account active, and an optional `InactiveReason`
  value object. Each transition is a pure function from the old aggregate
  to the new one, and its effect is stated per transition:
  - `VerifyUser` and `SetInActive` either change a flag and append one
    domain event to the aggregate's queue, or change nothing and report
    `false`;
  - `SetActive` either reactivates the user and clears the reason without
    appending any event, or changes nothing and reports `false`;
  - `RaiseCreatedEvent` and `ResendEmailVerification` return nothing; they
    append one created event for an unverified user and change no state;
  - `RequestPasswordReset` changes no state; it either appends one reset
    event or appends nothing and reports `false`.

  A failing constructor or conversion becomes a `Result` failure.
- **Exception-to-response mapping** (`ExceptionHandling`, in
  `exception_handling.dfy`). This covers:
  - the first-match dispatch from exception class to response detail;
  - how a class name becomes a readable title, through the regular
    expression `(\B[A-Z])`, deletion of every "Exception", and `TrimEnd`;
  - the choice between the public and the ordinary message;
  - the status, content type and `SCE-*` headers of the response.

Two support modules are included:

- `Wrappers` supplies `Option`, which stands for a nullable reference, and
  `Result`, which stands for a call that may throw.
- `Strings` restates the .NET text operations the core relies on:
  - `char.IsWhiteSpace` and `TrimEnd`;
  - ordinal `Replace(pattern, "")`;
  - decimal rendering of integers.

  It also defines `Split` and `Join` on a separator character. The core
  calls neither; they only serve to state and prove how the full name
  breaks back into its parts.

Three behaviours of the code are worth stating up front:

- The header guard `StatusCode < 500 || StatusCode >= 400` holds for every
  integer, so both `SCE-Code` and `SCE-Message` are always written.
- A user built by the parameterless constructor starts unverified and
  inactive, with no reason, because nothing assigns those properties. The
  model follows the code here; it does not assume that a new account
  starts active.
- `new InactiveReason(value)` rejects only `null`. An empty reason is
  accepted and stored.

## Model

| member | source | states |
|---|---|---|
| SnippetAccessPermission.Holds | Sharecode.Backend.Domain/Helper/SnippetAccessPermission.cs:18-20 | a granted capability is always held |
| SnippetAccessPermission.HoldsIffGrantedAtOrAbove | Sharecode.Backend.Domain/Helper/SnippetAccessPermission.cs:18-20 | a capability is held exactly when it, or a capability above it in the hierarchy, was granted |
| SnippetAccessPermission.HoldsIsMonotone | Sharecode.Backend.Domain/Helper/SnippetAccessPermission.cs:18-20 | for every combination of grants, holding a capability implies holding every lower one (Manage ⇒ Write ⇒ Read) |
| SnippetAccessPermission.NoPermission | Sharecode.Backend.Domain/Helper/SnippetAccessPermission.cs:10-11 | the denial keeps the given identifiers, holds no capability and reports the snippet as public |
| SnippetAccessPermission.Error | Sharecode.Backend.Domain/Helper/SnippetAccessPermission.cs:13-14 | the failure sentinel has empty identifiers, holds no capability and reports the snippet as public |
| SnippetAccessPermission.SentinelsDifferOnlyByIdentifiers | Sharecode.Backend.Domain/Helper/SnippetAccessPermission.cs:10-14 | the two sentinels agree on every capability and on visibility; as values (not as C# objects, which are compared by reference) they coincide exactly when both identifiers are empty |
| SnippetAccessPermission.IsPrivateSnippet | Sharecode.Backend.Domain/Helper/SnippetAccessPermission.cs:22-23 | private is always the negation of public |
| SnippetAccessPermission.Any | Sharecode.Backend.Domain/Helper/SnippetAccessPermission.cs:30-44 | true exactly when some requested capability is held |
| SnippetAccessPermission.All | Sharecode.Backend.Domain/Helper/SnippetAccessPermission.cs:51-65 | true exactly when every requested capability is held |
| SnippetAccessPermission.NoArgumentQueries | Sharecode.Backend.Domain/Helper/SnippetAccessPermission.cs:25-49 | `Any()` is true exactly when some raw grant was given; `All()` is true exactly when Manage was granted |
| SnippetAccessPermission.QueriesDependOnlyOnRequestedSet | Sharecode.Backend.Domain/Helper/SnippetAccessPermission.cs:30-65 | two requests that name the same capabilities get the same answers, whatever their order and repetition |
| SnippetAccessPermission.EmptyAndNonEmptyRequests | Sharecode.Backend.Domain/Helper/SnippetAccessPermission.cs:30-65 | `Any` of nothing is false and `All` of nothing is true; for a non-empty request, `All` implies `Any` |
| SnippetAccessPermission.ToControlModel | Sharecode.Backend.Domain/Helper/SnippetAccessPermission.cs:67-76 | the record carries the accessor and the raw grants, not the derived capabilities |
| SnippetAccessPermission.ControlModelRoundTrip | Sharecode.Backend.Domain/Helper/SnippetAccessPermission.cs:67-76 | rebuilding an evaluator from its record, with the same snippet and visibility, gives back the same evaluator |
| SnippetAccessPermission.ControlModelShowsRawGrants | Sharecode.Backend.Domain/Helper/SnippetAccessPermission.cs:67-76 | with a write-only grant, Read and Write are held and Manage is not, yet the record shows `Read = false` (derived Read at line 18) |
| Strings.TrimEnd | Sharecode.Backend.Api/Middleware/ExceptionHandlingMiddleware.cs:105 | the result is a prefix of the input that does not end in white space, and everything it drops is white space |
| Strings.RemoveAll | Sharecode.Backend.Api/Middleware/ExceptionHandlingMiddleware.cs:99 | deleting a pattern never makes text longer |
| Strings.RemoveAllAtFirstOccurrence | Sharecode.Backend.Api/Middleware/ExceptionHandlingMiddleware.cs:99 | the text before the leftmost occurrence is kept unchanged, that occurrence is deleted, and the scan resumes right after it |
| Strings.RemoveAllBetween | Sharecode.Backend.Api/Middleware/ExceptionHandlingMiddleware.cs:99 | scanning from any position up to the leftmost occurrence keeps that stretch of text unchanged and then deletes the occurrence |
| Strings.RemoveAllDeletesWholeOccurrences | Sharecode.Backend.Api/Middleware/ExceptionHandlingMiddleware.cs:99 | the text shrinks by a whole multiple of the pattern's length |
| Strings.RemoveAllWithoutOccurrence | Sharecode.Backend.Api/Middleware/ExceptionHandlingMiddleware.cs:99 | text in which the pattern does not occur comes back unchanged |
| Strings.RemoveAllAroundSeparator | Sharecode.Backend.Api/Middleware/ExceptionHandlingMiddleware.cs:99 | a character the pattern does not contain splits the deletion into two independent halves |
| Strings.IntToStringRoundTrip | Sharecode.Backend.Api/Middleware/ExceptionHandlingMiddleware.cs:53 | the decimal rendering of an integer is number-shaped text that reads back as the same integer |
| Profile.MakeInactiveReason | Sharecode.Backend.Domain/Entity/Profile/User.cs:136-142 | fails with `ArgumentNullException("value")` exactly for null; otherwise the reason carries the given text |
| Profile.ReasonConversionsRoundTrip | Sharecode.Backend.Domain/Entity/Profile/User.cs:141-142 | the conversion from text and the conversion back to text are inverse to each other |
| Profile.NewUser | Sharecode.Backend.Domain/Entity/Profile/User.cs:12-14 | a new user is unverified and inactive, with no reason and no events (properties at lines 54 and 60-61 are never assigned) |
| Profile.FullName | Sharecode.Backend.Domain/Entity/Profile/User.cs:29-38 | the full name is the first, the (non-empty) middle and the last name joined by single spaces, the middle name left out when it is null or empty; its length and first-name prefix follow |
| Profile.FullNameSplitsIntoParts | Sharecode.Backend.Domain/Entity/Profile/User.cs:29-38 | when no name part contains a space, splitting the full name at spaces gives back first, (non-empty) middle and last name |
| Profile.RaiseCreatedEvent | Sharecode.Backend.Domain/Entity/Profile/User.cs:63-70 | unverified: exactly one created event is appended and nothing else changes; verified: nothing changes |
| Profile.ResendEmailVerification | Sharecode.Backend.Domain/Entity/Profile/User.cs:108-114 | behaves exactly like `RaiseCreatedEvent`: one created event when unverified, none when verified |
| Profile.VerifyUser | Sharecode.Backend.Domain/Entity/Profile/User.cs:72-80 | succeeds exactly when unverified: the flag is set and one verified event (address, full name) is appended; otherwise nothing changes; either way the user ends up verified |
| Profile.SetInActive | Sharecode.Backend.Domain/Entity/Profile/User.cs:82-91 | throws exactly for an active user and a null reason; on success with an active user, it stores the reason, clears the flag and appends one event, changing nothing else; an inactive user is returned unchanged with `false` (null check at line 138) |
| Profile.SetActive | Sharecode.Backend.Domain/Entity/Profile/User.cs:93-101 | succeeds exactly when inactive and then clears the reason; the user ends up active; no event is ever appended |
| Profile.RequestPasswordReset | Sharecode.Backend.Domain/Entity/Profile/User.cs:116-125 | the intended guard, comparing the reason by its text: refused, with nothing changed, exactly when the check is on and the account is inactive with the wrong-password reason; otherwise exactly one reset event is appended and nothing else changes (sentinel at line 147) |
| Profile.RequestPasswordResetAsWritten | Sharecode.Backend.Domain/Entity/Profile/User.cs:116-125 | as written, the reference comparison with the freshly built sentinel is never true, so every request is accepted with one reset event, exactly like an unchecked request; it agrees with the intended guard exactly when that guard does not refuse (sentinel at line 147) |
| Profile.LockoutResetAcceptedAsWritten | Sharecode.Backend.Domain/Entity/Profile/User.cs:118 | after a lockout for wrong passwords, the checked request is accepted as written and appends a reset event, while the intended guard refuses it and changes nothing (deactivation at lines 82-91, sentinel at line 147) |
| Profile.Apply | Sharecode.Backend.Domain/Entity/Profile/User.cs:63-125 | any one transition only extends the event queue, by at most one event, and never changes the name or address |
| Profile.ApplyInvariants | Sharecode.Backend.Domain/Entity/Profile/User.cs:63-125 | one transition keeps "active ⇒ no reason" and keeps a verified user verified; it appends a verified event only when it verifies the address |
| Profile.RunInvariants | Sharecode.Backend.Domain/Entity/Profile/User.cs:63-125 | along any sequence of transitions: the queue only grows; verification is never undone; active accounts never hold a reason; at most one verified event is raised, and none once verified |
| Profile.VerifyTwice | Sharecode.Backend.Domain/Entity/Profile/User.cs:72-80 | verification is idempotent: the second call is refused and raises nothing |
| Profile.DeactivateTwice | Sharecode.Backend.Domain/Entity/Profile/User.cs:82-91 | a second deactivation is refused and keeps the first reason and the single event |
| Profile.ResetAfterLockout | Sharecode.Backend.Domain/Entity/Profile/User.cs:116-125 | under the intended text comparison, after deactivation for wrong passwords, the checked request is refused and the unchecked one appends one reset event (deactivation at lines 82-91, sentinel at line 147) |
| Profile.ResetAfterOtherDeactivation | Sharecode.Backend.Domain/Entity/Profile/User.cs:116-125 | under the intended text comparison, deactivation for any other reason, such as contacting support, does not block a reset (sentinel at line 149) |
| Profile.ActivateAfterDeactivate | Sharecode.Backend.Domain/Entity/Profile/User.cs:82-101 | reactivation clears the reason and adds no event to the one the deactivation raised |
| ExceptionHandling.InsertSpacesOnlyAddsSpaces | Sharecode.Backend.Api/Middleware/ExceptionHandlingMiddleware.cs:99 | the regular-expression step only inserts spaces: with all spaces deleted, input and output are equal (pattern at line 13) |
| ExceptionHandling.InsertSpacesAppend | Sharecode.Backend.Api/Middleware/ExceptionHandlingMiddleware.cs:99 | the step only looks one character back, so it distributes over concatenation given the last character of the left part (pattern at line 13) |
| ExceptionHandling.IdentifierSpacing | Sharecode.Backend.Api/Middleware/ExceptionHandlingMiddleware.cs:97-99 | on a name made only of ASCII word characters (a non-generic class name), `(\B[A-Z])` puts a space before exactly the capitals not at index 0 (pattern at line 13) |
| ExceptionHandling.Title | Sharecode.Backend.Api/Middleware/ExceptionHandlingMiddleware.cs:97-105 | a title never ends in white space |
| ExceptionHandling.TitleIgnoresExceptionSuffix | Sharecode.Backend.Api/Middleware/ExceptionHandlingMiddleware.cs:97-105 | appending "Exception" to a name that ends in a word character does not change its title |
| ExceptionHandling.WordsTitle | Sharecode.Backend.Api/Middleware/ExceptionHandlingMiddleware.cs:97-105 | a class name made of capitalised words plus "Exception" has as its title those words, separated by single spaces |
| ExceptionHandling.NotFoundTitle | Sharecode.Backend.Api/Middleware/ExceptionHandlingMiddleware.cs:97-105 | "NotFoundException" reads "Not Found" |
| ExceptionHandling.ChooseMessage | Sharecode.Backend.Api/Middleware/ExceptionHandlingMiddleware.cs:106 | the public message when it is non-empty, the ordinary message otherwise |
| ExceptionHandling.CreateExceptionDetail | Sharecode.Backend.Api/Middleware/ExceptionHandlingMiddleware.cs:95-111 | the detail carries the exception's status, its readable title, the chosen message, its errors, the inner message and its error code |
| ExceptionHandling.BuildExceptionMessage | Sharecode.Backend.Api/Middleware/ExceptionHandlingMiddleware.cs:60-93 | validation gives 400 with error code 400 and the errors; either JWT class gives 500 "Access Generation Failure", with the extended message only in development; a plain application exception gives its own detail; null or a class no arm names gives the unknown error; every status is 400 or 500 unless the application arm applies |
| ExceptionHandling.FirstMatch | Sharecode.Backend.Api/Middleware/ExceptionHandlingMiddleware.cs:62-92 | the index of the first arm the exception belongs to: no earlier arm matches |
| ExceptionHandling.DispatchIsFirstMatch | Sharecode.Backend.Api/Middleware/ExceptionHandlingMiddleware.cs:62-92 | the switch returns the detail of the first matching arm, so an exception caught by an earlier arm never reaches a later one |
| ExceptionHandling.ErrorCodeText | Sharecode.Backend.Api/Middleware/ExceptionHandlingMiddleware.cs:53 | a null error code renders as empty text; any other code renders as decimal text that reads back as the code (the nullable field at line 120) |
| ExceptionHandling.HeaderGuardAlwaysHolds | Sharecode.Backend.Api/Middleware/ExceptionHandlingMiddleware.cs:51 | the header condition is true for every status code |
| ExceptionHandling.HandleException | Sharecode.Backend.Api/Middleware/ExceptionHandlingMiddleware.cs:46-57 | the status and body come from the dispatch and the content type is JSON; both `SCE-*` headers are always present; `SCE-Message` is the body's message; `SCE-Code` is empty exactly when there is no error code and otherwise reads back as that code |
| ExceptionHandling.Invoke | Sharecode.Backend.Api/Middleware/ExceptionHandlingMiddleware.cs:27-44 | an aggregate is answered as its flattened inner exception, never as itself; an aggregate with nothing inside gives the 500 unknown error |

## Left out

- The async pipeline, the logger, the `HttpContext` writes and the JSON
  serializer are left out. The model returns the response as a value
  instead.
- The `ConcurrentDictionary` memo of readable names is left out. It only
  caches the pure `Title` function.
- `AggregateException.Flatten()` is a runtime-library call. The caught
  aggregate is represented by the inner exception of its flattened form.
- `AppException`, `ValidationException`, `JwtGenerationException` and
  `JwtFetchKeySecretException` are not part of this model, and neither is
  their class hierarchy. An exception is therefore described by the set of
  switch-arm classes its runtime class is or derives from. The members read
  from `AppException` are taken as plain fields:
  - the status code, already cast to `int`;
  - the public message, non-null;
  - the inner exception's message, nullable;
  - the error code, non-null.
- `Errors` is modelled as a sequence of strings. The element type of the
  source collections is not visible.
- Dafny's `string` is a sequence of Unicode scalar values, while a .NET
  string is a sequence of UTF-16 code units. A lone surrogate cannot be
  represented, and a character outside the Basic Multilingual Plane is one
  element here where .NET's `Length` counts two. So the lengths stated for
  `FullName` count scalar values.
- `SnippetAccessPermission` is a C# class, and two instances are compared
  by reference: every read of `Error` builds a new object. The model uses
  a value instead, so two evaluators with the same fields are equal.
  Nothing in the core compares evaluators.
- The runtime name of a generic exception class carries a backtick and its
  arity (for example "ApiException`1"). The title rule is modelled on any
  text, but `IdentifierSpacing` and `WordsTitle` speak only of names made of
  ASCII word characters.
- `\w` and `\B` are modelled for ASCII letters, digits and underscore
  only. The Unicode letter categories .NET also counts as word characters
  are left out.
- `long.ToString()` is modelled with the invariant culture's minus sign
  and digits.
- `User.SetLastLogin` and `NormalizedFullName` are left out. They depend
  on the wall clock and on culture-sensitive upper-casing.
- The data-annotation attributes (lengths, e-mail format, required) are
  left out. The framework enforces them, not the methods.
- The payloads of the created, deactivated and reset events are left out.
  The event factories are not part of this model, so those events are
  tags. The verified event keeps the address and full name its handler
  reads.
- `RaiseDomainEvent` lives in a base class that is not part of this model.
  It is modelled as appending to the aggregate's event queue.
- Profile.FullNameSplitsIntoParts: requires that no name part contains a
  space. With spaces inside a part, the split cannot recover the parts.
- Profile.RequestPasswordReset: the guard is modelled as equality of the
  reason's text, which is the intended behaviour. The compiled line 118
  compares references and never refuses; `RequestPasswordResetAsWritten`
  models that, and `Apply`, `RunInvariants`, `ResetAfterLockout` and
  `ResetAfterOtherDeactivation` use the intended guard.
- SnippetAccessPermission.SnippetAccess: the model assumes the enum has
  exactly the values `Read`, `Write` and `Manage`. The enum is declared in
  a file that is not part of this model. In the source, any other value
  (another member, a flags combination or a cast integer) matches no
  `case` at lines 36-38 or 57-59: `Any` skips it and `All` treats it as
  held, so `All((SnippetAccess)7)` is true and `Any((SnippetAccess)7)` is
  false. A null `params` array throws at the `foreach`; the model's
  request is a sequence and cannot be null.
- Profile.SetActive: promises a cleared reason only when the call changes
  something. An active user that still holds a reason cannot arise through
  the transitions (see `RunInvariants`).
- `SnippetController`, the application's startup wiring, the response DTOs,
  `Permission` and the user repository interface are left out. They are
  routing, serialization, persistence and an e-mail call around the core,
  with no logic of their own.

## Findings

| source | as written | input that shows it | evidently intended | confidence | as-written member | corrected member |
|---|---|---|---|---|---|---|
| Sharecode.Backend.Domain/Entity/Profile/User.cs:118 | `InActiveReason! == InactiveReasons.InvalidPassword` compares two `InactiveReason` references, since the class declares no `==`; the property at line 147 builds a new object on every read, so the comparison is never true | an active user calls `SetInActive(InactiveReasons.InvalidPassword)` and then `RequestPasswordReset(true)`: the request is accepted and a reset event is raised | a wrong-password lockout refuses the checked request, comparing the reason by its text | medium, not executed | Profile.RequestPasswordResetAsWritten, Profile.LockoutResetAcceptedAsWritten | Profile.RequestPasswordReset |
