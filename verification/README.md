# F1 visa interview practice front end: a Dafny model of its deterministic core

The application is a Next.js front end. Students practise F1 visa interviews with a voice assistant, and the app keeps the transcripts. This project models in Dafny the parts of it that are plain sequential logic, and proves properties about them:

- **Transcript reconciler** (`Transcript`). The voice channel's `message` handler folds streamed partial and final transcript events into a list of utterances. It rewrites the one pending partial entry of a speaker, or appends a new entry.
- **Call-session controller** (`Session`). It covers the channel callbacks (`call-start`, `call-end`, `message`), `initializeAssistant`, `toggleCall` and `toggleMute`, modelled as one state record plus the ordered log of outward calls. The outward calls are start, stop, setMuted, createMeeting and rateMeeting. What `start` returns, and whether `rateMeeting` throws, are parameters.
- **Form-validation hook** (`FormValidation`). Values are a JavaScript-like value tree with JS truthiness. The module models the dotted-path `getNestedValue` and `setNestedValue`, `handleChange`, `handleBlur`, `validateAll` (a method with a loop over the rule keys) and `resetForm`.
- **Page rules and decisions**:
  - the sign-up, login, verify and onboarding validators (`FieldRules`, `SignupPage`, `LoginPage`, `VerifyPage`, `OnboardingPage`);
  - the login page's redirect and error message, and the verify page's error message;
  - the onboarding render guard;
  - `handleAuthRedirect` (`Navigation`) and the `RouteGuard` decision (`RouteGuard`);
  - `formatDuration` on the history page (`History`).
- **Mock auth store** (`Auth`). It holds the current user plus a one-slot storage for the stored user. It also models the auth context's `logout`.
- **Browser built-ins these rely on**, in helper modules:
  - `trim`, `split` and the `\S+@\S+\.\S+` search (`Text`);
  - `toString`, `padStart` and `parseInt` (`Decimal`);
  - `URLSearchParams.get` and `encodeURIComponent` (`Query`);
  - the shapes of thrown errors (`ApiErrors`).

Inputs that are not deterministic are passed in as parameters:

- the display timestamps;
- the ids `start` returns;
- whether a backend call succeeds, and what it answers;
- the page `handleAuthRedirect` would pick.

Whitespace is the ASCII set (space, tab, line feed, vertical tab, form feed, carriage return).

The verify page locks its email field with `!!searchParams.get("email")`. The model follows that code: the field is locked when the parameter is present **and non-empty**. A URL with `?email=` leaves the field editable.

## Model

| member | source | states |
|---|---|---|
| Transcript.FindPending | hooks/use-vapi.tsx:62-64 | `findIndex` returns the first non-final entry for the role, or reports that there is none |
| Transcript.Reconcile | hooks/use-vapi.tsx:57-99 | With a pending entry for the role, exactly that slot is rewritten with the new text and finality, keeping its timestamp; with none, one entry stamped `now` is appended |
| Transcript.OnMessage | hooks/use-vapi.tsx:55-57 | Only `transcript` messages touch the conversation. Each grows it by at most one entry, leaves one entry with the message's role, text and finality, and keeps the one-pending-per-role invariant; every other message leaves it unchanged |
| Transcript.FirstPendingIsOnlyPending | hooks/use-vapi.tsx:62-64 | Under the at-most-one-pending invariant, the entry `findIndex` picks is the only pending one for its role |
| Transcript.ReconcileKeepsInvariant | hooks/use-vapi.tsx:60-98 | A transcript event keeps at most one non-final entry per role |
| Transcript.ReconcileRewritesOrAppends | hooks/use-vapi.tsx:59-99 | An event rewrites exactly one existing entry or appends exactly one; the length does not shrink, roles and timestamps keep their places, and every other entry is unchanged |
| Transcript.FinalKeepsTimestamp | hooks/use-vapi.tsx:66-71 | A final event on a pending slot makes it final with the new text and the original timestamp |
| Transcript.PartialChangesOnlyText | hooks/use-vapi.tsx:86-89 | A partial event on a pending slot changes only that entry's text |
| Transcript.BackToBackFinals | hooks/use-vapi.tsx:73-78 | Two finals for a role with nothing pending append two separate entries, with no merging |
| Transcript.ReplayKeepsInvariant | hooks/use-vapi.tsx:55-101 | Over any sequence of messages the conversation never holds two pending entries for one role |
| Transcript.ReplayLength | hooks/use-vapi.tsx:55-101 | Replaying events never shrinks the conversation and adds at most one entry per event |
| Transcript.GreetingScenario | hooks/use-vapi.tsx:60-98 | Starting empty, user partial "Hi", partial "Hi there", then final "Hi there!" leave one final user entry "Hi there!" |
| Transcript.WelcomeScenario | hooks/use-vapi.tsx:73-78 | Two assistant finals from empty give two final entries in order |
| Session.InitializeAssistant | hooks/use-vapi.tsx:32-39 | Any existing channel is stopped before a new one is created and held; the session flags, call id, mute flag and transcript are not reset |
| Session.OnEvent | hooks/use-vapi.tsx:41-49 | `call-start` sets the session active; `call-end` sets it inactive, clears the call id and empties the transcript; a transcript message goes through the reconciler and other messages leave the transcript alone; errors change nothing |
| Session.ToggleCall | hooks/use-vapi.tsx:122-138 | Active: rate the call 5, then stop only if rating did not throw. Inactive: start, then record the returned id and create the meeting with it. A throw skips the rest of the branch |
| Session.ToggleMute | hooks/use-vapi.tsx:155-161 | Without a channel nothing happens; otherwise the mute flag flips and the same new value is sent to the channel |
| Session.ToggleMuteTwice | hooks/use-vapi.tsx:155-161 | Two mute toggles restore the state |
| Session.ApplyKeepsValid | hooks/use-vapi.tsx:32-161 | Every step keeps the held channel among those already created |
| Session.RunKeepsValid | hooks/use-vapi.tsx:32-161 | Every reachable state refers only to channels already created |
| Session.ReachableValid | hooks/use-vapi.tsx:20-161 | The state on mount is valid, and so is every state reached from it by any sequence of inputs |
| Session.OnlyEventsMoveSessionFlag | hooks/use-vapi.tsx:41-49 | Only the channel's own callbacks move the session flag or the transcript; the handlers never touch them |
| Session.RateBeforeStop | hooks/use-vapi.tsx:125-128 | Any stop request made while ending a call is immediately preceded by the rating of 5 |
| Session.RatingWithoutCallId | hooks/use-vapi.tsx:28-49 | Because the call id is set only after `start` returns, a session reported active after a failed start is rated with no meeting id |
| FormValidation.ReadField | hooks/use-form-validation.ts:17-19 | A path without a dot reads that field of the values, `undefined` when missing |
| FormValidation.GetNestedValue | hooks/use-form-validation.ts:17-19 | A path without a dot reads that field, `undefined` when missing |
| FormValidation.MissingFirstSegment | hooks/use-form-validation.ts:17-19 | A path whose first segment is not a key of the values reads `undefined`, whatever the rest of the path |
| FormValidation.ReadNestedField | hooks/use-form-validation.ts:17-19 | A path `a.b` reads field `b` of the record stored at `a` |
| FormValidation.FalsyStops | hooks/use-form-validation.ts:18 | The `acc && acc[part]` walk stops at the first falsy value and yields that value |
| FormValidation.MissingSegment | hooks/use-form-validation.ts:18 | A missing first segment yields `undefined` whatever follows, instead of failing |
| FormValidation.GetInAppend | hooks/use-form-validation.ts:18 | Walking `p` then `q` is walking `p + q` |
| FormValidation.SetIn | hooks/use-form-validation.ts:21-26 | Writing a path keeps every top-level key other than the path's first segment as it was |
| FormValidation.SetNestedValue | hooks/use-form-validation.ts:21-26 | After a successful write the path reads back the value written, and every top-level key other than the path's first segment is unchanged |
| FormValidation.GetAfterSet | hooks/use-form-validation.ts:17-26 | Reading a path right after a successful write of it returns the value written |
| FormValidation.SetLeavesOtherPaths | hooks/use-form-validation.ts:21-26 | A write leaves every path that leaves the written one through existing records unchanged |
| FormValidation.SetSucceedsAlongRecords | hooks/use-form-validation.ts:21-26 | A write cannot throw when every intermediate on the path is a record, missing or falsy |
| FormValidation.FalsyIntermediateBecomesRecord | hooks/use-form-validation.ts:24 | A missing or falsy intermediate is replaced by a fresh record holding the rest of the path |
| FormValidation.EmptyRecordWalk | hooks/use-form-validation.ts:18 | Reading any non-empty path of an empty record yields `undefined` |
| FormValidation.HandleChange | hooks/use-form-validation.ts:28-43 | The value is written at the path. The field is re-validated on the new value only if it is already touched and has a rule; otherwise errors and touched are unchanged |
| FormValidation.HandleBlur | hooks/use-form-validation.ts:45-57 | The field becomes touched; if it has a rule, its entry becomes the rule's result on the current value; the values never change |
| FormValidation.ValidateAll | hooks/use-form-validation.ts:59-79 | Returns true iff every rule passes. It writes one entry per rule key, the message for failing fields and null for passing ones, and leaves values and touched alone |
| FormValidation.ResetForm | hooks/use-form-validation.ts:81-85 | Resetting restores the initial values and empties errors and touched |
| FormValidation.ResetThenChange | hooks/use-form-validation.ts:36-40 | After a reset, no change produces an error until a field is blurred again |
| Text.TrimEmptyIffBlank | app/signup/page.tsx:40 | `value.trim()` is empty exactly when every character is whitespace |
| Text.JoinSplit | hooks/use-form-validation.ts:18 | `split('.')` loses nothing: joining the parts with '.' gives the path back |
| Text.SplitJoin | hooks/use-form-validation.ts:22 | Splitting dot-free segments joined with '.' gives the segments back |
| Text.IsEmailLike | app/signup/page.tsx:43 | The unanchored `\S+@\S+\.\S+` search succeeds exactly when an '@' and a later '.' exist, with non-blank characters before the '@', between them and after the '.' |
| FieldRules.RequiredText | app/signup/page.tsx:40 | `value.trim() ? null : message` fails exactly on blank input |
| FieldRules.RequiredValue | app/signup/page.tsx:56 | `value ? null : message` fails exactly on falsy values |
| FieldRules.EmailRule | app/signup/page.tsx:41-45 | Blank gives "Email is required", a failed pattern search gives "Email is invalid", otherwise no error; it passes exactly when the pattern matches |
| SignupPage.PasswordRule | app/signup/page.tsx:46-50 | Empty gives "Password is required", shorter than six gives "at least 6 characters"; it passes exactly from length six |
| SignupPage.ConfirmPasswordRule | app/signup/page.tsx:51-55 | Empty gives "Please confirm", differing from the password gives "Passwords do not match"; it passes exactly on a non-empty equal value |
| SignupPage.RuleVerdicts | app/signup/page.tsx:39-57 | What each sign-up rule's verdict says about the field it reads, including the confirmation checked against the form's current password |
| SignupPage.HandleSubmit | app/signup/page.tsx:61-72 | `signup` is called only when every rule passes, and then with a matching email, a non-blank name, a password of at least six characters equal to its confirmation, and a truthy user type. Its arguments are the form's own email, password, name and user type |
| SignupPage.InitialValuesRejected | app/signup/page.tsx:31-37 | On the initial values every rule fails except the user type's, which defaults to "student" |
| SignupPage.InitialValuesNotSubmitted | app/signup/page.tsx:64-66 | The untouched form submits nothing |
| LoginPage.PasswordRule | app/login/page.tsx:69-72 | The login password rule rejects only the empty string |
| LoginPage.ValidIff | app/login/page.tsx:63-73 | The login form validates exactly when the email matches the pattern and the password is non-empty |
| LoginPage.ErrorMessage | app/login/page.tsx:124-137 | With a description: its first message if non-empty, else `message` as is. Without one: `message` if non-empty, else the default text. A non-object also gets the default |
| LoginPage.ErrorMessageShown | app/login/page.tsx:126-137 | The login message is missing or empty only when a description has no usable first message and `message` is missing or empty |
| LoginPage.PostLoginPathAsWritten | app/login/page.tsx:112-123 | As written: inactive accounts go to `/verify?email=` followed by the raw, unencoded email; active ones without a profile go to onboarding, all others where `handleAuthRedirect` decides |
| LoginPage.PostLoginPath | app/login/page.tsx:112-123 | The intended redirect: the same three cases, but the email goes into the verify link through `encodeURIComponent` |
| LoginPage.VerifyLinkCarriesEmail | app/login/page.tsx:113 | For the intended, encoded link, the `email` parameter reads back as the account's email whatever characters it holds; the link as written does not do this (see Findings) |
| LoginPage.StoredRecord | app/login/page.tsx:97-106 | The stored record carries the answer's id, email and name and its profile flag |
| LoginPage.HandleSubmit | app/login/page.tsx:77-141 | Nothing happens unless the form validates. A thrown call shows its message. Otherwise the page redirects exactly when the answered email equals the typed one, since the context login then finds it stored, and it goes to the link as written (the raw email in `/verify?email=`); if not, "Invalid credentials" is shown and the current user is kept |
| VerifyPage.InitialValues | app/verify/page.tsx:37-40 | The email starts as the `email` query parameter, or "" without one; the OTP starts empty |
| VerifyPage.ValidIff | app/verify/page.tsx:42-52 | The verify form validates exactly when the email matches the pattern and the OTP is not blank |
| VerifyPage.InitialValuesRejected | app/verify/page.tsx:37-52 | With the OTP empty, the untouched form never validates, whatever the URL |
| VerifyPage.ErrorMessage | app/verify/page.tsx:90-92 | `description?.message?.[0] \|\| message \|\| default` always yields a non-empty message, except for `null` or `undefined`, where reading `description` throws and nothing is shown |
| VerifyPage.AgreesWithLogin | app/verify/page.tsx:92 | For error objects the verify and login messages agree, unless neither a first validation message nor `message` is usable; then the verify page shows its default and the login page does not |
| VerifyPage.HandleSubmit | app/verify/page.tsx:56-96 | The backend is reached only when the form validates; success shows the confirmation and leads to the login page; failure shows the error message |
| VerifyPage.Request | app/verify/page.tsx:56-77 | The verify endpoint is called only when the form validates, with the form's own email and OTP, so the email matches the pattern and the OTP is not blank |
| VerifyPage.LoginHandOffAsWritten | app/verify/page.tsx:37-118 | Through the link the login page builds, an email with no '+', '&', '#', '%', space or control character shows up unchanged, locked exactly when it is non-empty |
| VerifyPage.LoginHandOff | app/verify/page.tsx:37-118 | Through the intended, encoded link, every account email shows up unchanged, locked exactly when it is non-empty |
| VerifyPage.AsWrittenLinkLosesPlus | app/login/page.tsx:113 | As written, the unencoded link turns every '+' of the email into a space on the verify page. This is stated for emails without '&', '#', '%', spaces or control characters |
| VerifyPage.SpacedAddressAccepted | app/verify/page.tsx:43-47 | "a+b@x.co" arrives as "a b@x.co", which the email rule accepts |
| OnboardingPage.SatRule | app/onboarding/page.tsx:60-62 | A SAT rule passes exactly on a positive number |
| OnboardingPage.InitialFieldValue | app/onboarding/page.tsx:36-53 | The untouched form holds empty strings, SAT scores of 0 and gender "other" at the rule paths |
| OnboardingPage.InitialValuesRejected | app/onboarding/page.tsx:36-68 | On the initial values every rule fails except gender's, so `validateAll` fails |
| OnboardingPage.SatInput | app/onboarding/page.tsx:194 | `Number.parseInt(text) \|\| 0` always stores a number, and 0 for text that does not parse |
| OnboardingPage.NonNumericSatRejected | app/onboarding/page.tsx:194-222 | SAT input without a digit is stored as 0, which the SAT rules reject |
| OnboardingPage.TypedScore | app/onboarding/page.tsx:194 | Typing a score's digits stores that score, accepted exactly when positive |
| OnboardingPage.TypedText | app/onboarding/page.tsx:194 | Typing digits without a leading zero stores the number whose decimal string is exactly the typed text |
| OnboardingPage.Render | app/onboarding/page.tsx:28-99 | The form shows only for a user without a profile; everyone else is sent to the dashboard |
| OnboardingPage.RenderAfterAuth | app/onboarding/page.tsx:28-34 | A freshly signed-up user sees the form. After the hook's logout, or the context's intended logout, the page goes to the dashboard. After the context's logout as written, which is the one the navbar calls, the page shows what it showed before, so a signed-in user without a profile still gets the form |
| OnboardingPage.HandleSubmit | app/onboarding/page.tsx:72-95 | Saving runs only when every rule passes. The page moves to the dashboard only when saving resolves truthy, and shows its error only when saving throws. The onboarding hook never throws, so that branch is not reached |
| OnboardingPage.InitialSubmitDoesNothing | app/onboarding/page.tsx:75-77 | Submitting the untouched form saves nothing |
| Navigation.PathsNameTheirPage | hooks/use-navigation.ts:12-34 | Each `navigateTo*` helper pushes one fixed absolute path, and paths and pages correspond one to one |
| Navigation.HandleAuthRedirect | hooks/use-navigation.ts:36-53 | Unauthenticated goes to login; a non-onboarded student to onboarding; a non-onboarded consultancy to consultancy onboarding; anything else to the dashboard |
| Navigation.RedirectTargets | hooks/use-navigation.ts:36-53 | The redirect is login exactly when unauthenticated, the dashboard for any onboarded user, and always one of four pages |
| Navigation.LogoutRedirectsToLogin | hooks/use-navigation.ts:37-40 | After the intended logout the redirect is the login page |
| RouteGuard.Guard | components/route-guard.tsx:15-39 | The redirect goes to login exactly when authentication is required and missing, and then nothing renders. The onboarding redirect happens exactly for a non-onboarded student where onboarding is required and authentication is not missing. Children render exactly when there is no redirect |
| RouteGuard.DefaultsAlwaysRender | components/route-guard.tsx:15 | With the default props the guard always renders |
| RouteGuard.ConsultancyNeverOnboarded | components/route-guard.tsx:25-35 | Consultancy users are never redirected to onboarding |
| RouteGuard.GuardAgreesWithRedirect | components/route-guard.tsx:25-28 | For a signed-in user the guard sends to onboarding exactly when `handleAuthRedirect` would, and renders when that would go to the dashboard |
| RouteGuard.LogoutLocksProtectedPages | components/route-guard.tsx:20-33 | After the intended logout, pages that require authentication redirect to login and render nothing |
| Auth.Restore | hooks/use-auth.ts:20-32 | On mount the current user is the stored one |
| Auth.IsAuthenticated | hooks/use-auth.ts:117 | `!!user`: authenticated exactly when a user is current. Auth.Signup makes it true; Auth.Logout and Auth.ContextLogout make it false; Auth.ContextLogoutAsWritten leaves it as it was |
| Auth.Signup | hooks/use-auth.ts:43-53 | The new user has the given email, name and type and is not onboarded; it is both stored and current |
| Auth.Login | hooks/use-auth.ts:64-89 | Succeeds, making the stored user current, exactly when the stored email equals the given one. A failure sets "Invalid email or password" and keeps the current user |
| Auth.LoginIgnoresPassword | hooks/use-auth.ts:73-82 | The password never affects `login` |
| Auth.Logout | hooks/use-auth.ts:91-94 | The storage slot is emptied and the current user dropped |
| Auth.UpdateUser | hooks/use-auth.ts:96-107 | With no user nothing changes. Otherwise the given fields override, the others keep their values, and the stored copy equals the new user |
| Auth.EmptyUpdateRestoresStorage | hooks/use-auth.ts:98-104 | An empty update writes the current user back to storage unchanged |
| Auth.ClearAuth | lib/auth.ts:21-25 | `clearAuth` empties the storage slot and leaves the in-memory user |
| Auth.ContextLogoutKeepsUser | contexts/auth-context.tsx:24-27 | As written, the context's logout leaves a signed-in user signed in and stored again |
| Auth.ContextLogoutAsWritten | contexts/auth-context.tsx:24-27 | As written, the context's logout keeps the current user (if any) and writes it back to storage, so authentication is unchanged |
| Auth.ContextLogout | contexts/auth-context.tsx:24-27 | The intended logout leaves nobody signed in and storage empty |
| Auth.LoginAfterLogoutFails | hooks/use-auth.ts:73-85 | After the intended logout, logging in fails for every email |
| History.FormatDuration | app/history/page.tsx:57-61 | The output is canonical minutes, ':', then two seconds digits. The seconds are below 60 and minutes*60 + seconds equals the input |
| History.UnderAMinute | app/history/page.tsx:58-60 | Under a minute the output starts with "0:" |
| Decimal.ParseIntNatToString | app/onboarding/page.tsx:194 | `parseInt` reads back any natural number's decimal string |
| Decimal.ParseIntCanonical | app/onboarding/page.tsx:194 | `parseInt` reads a digit string without a leading zero as the number whose decimal string it is |
| Decimal.NoDigitParsesToZero | app/onboarding/page.tsx:194 | Text without digits parses as `NaN`, so `\|\| 0` gives 0 |
| Query.DecodeEncode | app/verify/page.tsx:38 | Query decoding undoes `encodeURIComponent` |
| Query.SingleParam | app/verify/page.tsx:38 | `get(name)` on `prefix?name=value` returns the decoded value when the URL holds no '#' and the value no '&' |
| Query.FragmentHidesQuery | app/verify/page.tsx:38 | A '?' after the first '#' is part of the fragment, so such a URL has no query and `get` returns `null` |
| Query.DecodeWithoutEscapes | app/verify/page.tsx:38 | Without '%', decoding only turns each '+' into a space |

## Left out

- Volume level, the radial bar animation, `changeUrl`, `sendMessage`, `say` and the unmount cleanup: these only forward to the browser or the voice SDK.
- The voice SDK and every HTTP request. `start`, `stop`, `createMeeting` and `rateMeeting` are entries in a call log, and what they return is a parameter.
- `createMeeting` and `rateMeeting` never check `response.ok`, so in the model a failed request does not throw either.
- Timestamps from `toLocaleTimeString`, random user ids and the `setTimeout` delays: these are parameters.
- Loading and submitting flags, access and refresh tokens: only the `user` storage slot is modelled.
- React re-rendering and stale closures. Handlers run as sequential steps on one state.
  - This matters for `handleChange`, which re-validates against the values before the change.
  - It also matters for `toggleCall`, which reads `isSessionActive` as it was when the page last rendered.
  - The page `handleAuthRedirect` picks after login or sign-up is a parameter, or is left out.
- FormValidation.GetIn: reading a property of a truthy string or number (`"ab"["0"]`) is modelled as `undefined`; JavaScript would index into the string. Likewise, inherited properties of a record (`constructor`, `__proto__`) read as `undefined`, because a record holds only its own keys. The pages' field paths never name such properties.
- Form values are immutable trees. `setNestedValue` mutates nested records that the previous state shares, and that aliasing is not modelled.
- FieldRules.TextOf: a text rule given a non-string reads it as ""; JavaScript would throw on `trim`. The pages only store strings in those fields.
- OnboardingPage.SatRule: non-numbers compare as not positive; JavaScript would coerce booleans and numeric strings. The SAT fields only ever hold numbers.
- Decimal.ParseInt: reads decimal digits only, with no `0x` prefix, no `Infinity` and no integer-size limits. It treats 0 and `NaN` alike under `|| 0`.
- Text: whitespace is the ASCII set; JavaScript's `\s` and `trim` also cover Unicode spaces, and its string lengths count UTF-16 units.
- Query.SearchParam: the URL parser removes tabs and line breaks and trims leading and trailing spaces and control characters before the query is read. This is not modelled, so the lemmas about the unencoded verify link (VerifyPage.AsWrittenLinkLosesPlus, VerifyPage.LoginHandOffAsWritten) are stated only for emails without spaces or control characters. The encoded link never contains them.
- History.FormatDuration: takes whole, non-negative seconds only. The source's `seconds: number` also admits negative and fractional values, which `Math.floor` and JavaScript's truncating `%` turn into strings such as "-2:-30" for -90 or "1:30.5" for 90.5. The history page defines the function but never calls it.
- Query.EncodeChar: characters beyond ASCII are kept as they are. The browser escapes them as UTF-8 and decodes them back. Percent escapes are decoded one character at a time, with no UTF-8 decoding.
- The display side of the SAT inputs (`value || ""`), and every presentational page: the dashboard, profile, home, layout, navbar and consultancy onboarding.
- lib/auth.ts apart from `clearAuth`, the student and consultancy onboarding storage hooks, the providers, and middleware.ts, whose redirect is commented out.

## Findings

| source | as written | input that shows it | evidently intended | confidence | as-written member | corrected member |
|---|---|---|---|---|---|---|
| contexts/auth-context.tsx:24-27 | `logout` calls `clearAuth()` and then `updateUser(null)`. Spreading `null` over the current user copies it back into state and storage | any signed-in user | the user is signed out and storage is empty | not executed | Auth.ContextLogoutKeepsUser | Auth.ContextLogout |
| app/login/page.tsx:113 | the email goes into `/verify?email=` without `encodeURIComponent` | the account email "a+b@x.co" arrives as "a b@x.co", locked, and still passes the email rule | the verify page receives the account's email unchanged, as LoginPage.VerifyLinkCarriesEmail proves for the encoded link | not executed | VerifyPage.AsWrittenLinkLosesPlus | LoginPage.PostLoginPath |

The page models follow the code as written: `LoginPage.HandleSubmit` redirects through `LoginPage.PostLoginPathAsWritten`, and the navbar's logout is `Auth.ContextLogoutAsWritten`. The corrected members sit beside them and carry the intended properties: `LoginPage.PostLoginPath` with `LoginPage.VerifyLinkCarriesEmail` and `VerifyPage.LoginHandOff`, and `Auth.ContextLogout` with `Navigation.LogoutRedirectsToLogin` and `RouteGuard.LogoutLocksProtectedPages`.
