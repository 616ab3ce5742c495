# TrainTogether authentication, formatting and navigation core in Dafny

This project models three parts of the TrainTogether Android app:

- The authentication screen's view model. This is the `AuthState` record and the
  `AuthEvent`s the screen sends. It covers the `onEvent` dispatch, the field,
  toggle and error handlers, and the register-form `validate` checks. It covers
  the e-mail pattern `^[A-Za-z0-9+_.-]+@[A-Za-z0-9.-]+$`, and the three submits
  (login, register, reset password) with the state updates their service
  callbacks make. It also covers the toast texts.
- The pure utility functions. These are `toNavigationPath`, `formatSecondsToMMss`,
  `formatDuration`, `formatDurationFromMillis`, `countConsecutiveDates` over day
  numbers, and `oneDayInMillis`.
- The navigation helpers. These are the `Screens` routes, plus `navigateTo` and
  `navigateAndClearStack` as a decision: pop, navigate to a URI with options,
  or do nothing.

Layout:

- `wrappers.dfy`: `Option`.
- `text.dfy`: Kotlin's `isBlank`, `joinToString` and `split` on one
  character, and Java's `%02d` and `"%02d:%02d"` formats. It also holds a
  reader for those formats, so that formatting can be stated as a round trip.
- `email.dfy`: the e-mail pattern. It is given both as a declarative predicate
  and as a scan that decides it.
- `auth.dfy`: the view model. The reducer `Step` applies one event. A submit that
  reaches the authentication service is followed at once by that service's
  callback, and the service's answer is an input (`AuthReply`). So a whole
  submit is one pure function. A field-wise view (`Field`, `Get`) states the
  "nothing else changes" properties.
- `utils.dfy`: the utility functions. Kotlin's `/` and `%` truncate toward
  zero, so they are written out as `Quot` and `Rem`.
- `actions.dfy`: the screens and the navigation decisions.

## Model

| member | source | states |
|---|---|---|
| Text.IsBlank | app/src/main/java/com/konovus/traintogether/presentation/ui/screens/authScreen/AuthViewModel.kt:211-212 | Kotlin `isBlank`: every character is JVM whitespace or a space separator; `EmailFormat.MatchImpliesNotBlank` and `Auth.ValidateAcceptsIff` state what it means for the checks |
| Text.Join | app/src/main/java/com/konovus/traintogether/data/utils/Utils.kt:38-44 | `joinToString(separator)`; `Text.SplitJoin` states that splitting undoes it |
| Text.SplitJoin | app/src/main/java/com/konovus/traintogether/data/utils/Utils.kt:38-44 | Splitting at the separator undoes `joinToString` when no piece contains the separator |
| Text.Format02 | app/src/main/java/com/konovus/traintogether/data/utils/Utils.kt:76-80 | `%02d`. A non-negative number becomes decimal digits with that value: exactly two below 100, and no leading zero from 10 up. A negative number is "-" followed by the digits of its magnitude, without padding or a leading zero |
| Text.ReadClockText | app/src/main/java/com/konovus/traintogether/data/utils/Utils.kt:76-80 | `"%02d:%02d"`-style text of non-negative fields reads back as exactly those fields, and its ':'-separated pieces are the `%02d` texts of the fields |
| EmailFormat.MatchesEmail | app/src/main/java/com/konovus/traintogether/presentation/ui/screens/authScreen/AuthViewModel.kt:84-85 | The computed e-mail check holds exactly when some '@' splits the address into a non-empty run of `[A-Za-z0-9+_.-]` and a non-empty run of `[A-Za-z0-9.-]` |
| EmailFormat.ScanIsPattern | app/src/main/java/com/konovus/traintogether/presentation/ui/screens/authScreen/AuthViewModel.kt:152-152 | The left-to-right scan accepts exactly the strings the pattern describes |
| EmailFormat.MatchImpliesNotBlank | app/src/main/java/com/konovus/traintogether/presentation/ui/screens/authScreen/AuthViewModel.kt:80-89 | An address that matches the pattern is never blank, so the reset path's blank check can only fire on non-matching input |
| EmailFormat.MatchHasOneAt | app/src/main/java/com/konovus/traintogether/presentation/ui/screens/authScreen/AuthViewModel.kt:213-213 | A matching address contains exactly one '@' |
| Auth.InitialState | app/src/main/java/com/konovus/traintogether/presentation/ui/screens/authScreen/AuthViewModel.kt:230-248 | The default state has every text empty, every flag false and both messages null |
| Auth.Message | app/src/main/java/com/konovus/traintogether/presentation/ui/screens/authScreen/AuthViewModel.kt:276-318 | The toast texts; `Auth.CheckMessagesDistinct` and `Auth.FailureReasonRecoverable` state that they tell the checks apart and carry the reason |
| Auth.CheckMessageLength | app/src/main/java/com/konovus/traintogether/presentation/ui/screens/authScreen/AuthViewModel.kt:279-297 | The five check messages have five different lengths |
| Auth.CheckMessagesDistinct | app/src/main/java/com/konovus/traintogether/presentation/ui/screens/authScreen/AuthViewModel.kt:279-297 | Two check messages are equal only for the same check |
| Auth.FailureReasonRecoverable | app/src/main/java/com/konovus/traintogether/presentation/ui/screens/authScreen/AuthViewModel.kt:299-317 | A failure message is its fixed prefix followed by the reason, and the reason can be read back from it |
| Auth.AgreeOutsideFrame | app/src/main/java/com/konovus/traintogether/presentation/ui/screens/authScreen/AuthViewModel.kt:230-248 | Two states whose record fields agree outside one field agree on every other field's value |
| Auth.FieldsDetermineState | app/src/main/java/com/konovus/traintogether/presentation/ui/screens/authScreen/AuthViewModel.kt:230-248 | The seventeen fields cover the state: agreeing on all of them is equality |
| Auth.Validate | app/src/main/java/com/konovus/traintogether/presentation/ui/screens/authScreen/AuthViewModel.kt:209-225 | No message exactly when every check passes; otherwise the message of the first failing check in the order e-mail blank, password blank, e-mail pattern, password under 6, confirmation different |
| Auth.ValidateAcceptsIff | app/src/main/java/com/konovus/traintogether/presentation/ui/screens/authScreen/AuthViewModel.kt:209-225 | Registration input is accepted exactly when the e-mail matches, the password is non-blank with at least 6 characters, and the confirmation equals it |
| Auth.ErrorText | app/src/main/java/com/konovus/traintogether/presentation/ui/screens/authScreen/AuthViewModel.kt:170-170 | `error.toString()` is the reason, or "null" when the service gave none |
| Auth.StartLogin | app/src/main/java/com/konovus/traintogether/presentation/ui/screens/authScreen/AuthViewModel.kt:151-164 | Login reaches the service exactly when the e-mail matches and the password is non-empty. A bad e-mail is reported first, then an empty password, with the state untouched. A started login flips only the login spinner and sends the form's e-mail and password |
| Auth.StartRegister | app/src/main/java/com/konovus/traintogether/presentation/ui/screens/authScreen/AuthViewModel.kt:176-188 | Registration reaches the service exactly when validation passes. A rejection leaves the state and reports the first failing check. A started one flips only the register spinner |
| Auth.StartResetPassword | app/src/main/java/com/konovus/traintogether/presentation/ui/screens/authScreen/AuthViewModel.kt:79-93 | Reset reaches the service exactly when the e-mail matches. A rejection changes only the reset message and emits no toast. A started one flips only the reset spinner |
| Auth.Answer | app/src/main/java/com/konovus/traintogether/presentation/ui/screens/authScreen/AuthViewModel.kt:165-171 | The shared callback switches loading off and changes nothing else except `loginSuccessful`. Success sets it with no toast; a failure keeps it and reports the service's reason |
| Auth.OnSignInReply | app/src/main/java/com/konovus/traintogether/presentation/ui/screens/authScreen/AuthViewModel.kt:165-173 | The sign-in callback is the shared answer followed by flipping the login spinner back |
| Auth.OnCreateAccountReply | app/src/main/java/com/konovus/traintogether/presentation/ui/screens/authScreen/AuthViewModel.kt:189-197 | The account-creation callback is the shared answer followed by flipping the register spinner back |
| Auth.OnResetReply | app/src/main/java/com/konovus/traintogether/presentation/ui/screens/authScreen/AuthViewModel.kt:94-101 | The reset callback sets the "sent" or "failed" text with the reason, flips the reset spinner back, and changes nothing else |
| Auth.Step | app/src/main/java/com/konovus/traintogether/presentation/ui/screens/authScreen/AuthViewModel.kt:31-52 | `onEvent`: each event is sent to its handler. `Auth.LocalStep` states that only the three submits involve the service. The edit, toggle, error and submit lemmas below state each branch |
| Auth.Apply | app/src/main/java/com/konovus/traintogether/presentation/ui/screens/authScreen/AuthViewModel.kt:105-149 | The handlers that only edit the state. `Auth.EditAgreesOutside` and `Auth.ToggleAgreesOutside` state that each changes only its own field |
| Auth.LocalStep | app/src/main/java/com/konovus/traintogether/presentation/ui/screens/authScreen/AuthViewModel.kt:31-52 | Every event other than the three submits is handled without the service and emits no toast |
| Auth.EditSetsField | app/src/main/java/com/konovus/traintogether/presentation/ui/screens/authScreen/AuthViewModel.kt:105-123 | An editing event stores its text in its own field and emits nothing |
| Auth.LoginFormEdit | app/src/main/java/com/konovus/traintogether/presentation/ui/screens/authScreen/AuthViewModel.kt:105-111 | A login-form edit keeps every other record field |
| Auth.RegisterFormEdit | app/src/main/java/com/konovus/traintogether/presentation/ui/screens/authScreen/AuthViewModel.kt:113-123 | A register-form edit keeps every other record field |
| Auth.ResetFormEdit | app/src/main/java/com/konovus/traintogether/presentation/ui/screens/authScreen/AuthViewModel.kt:75-77 | A reset e-mail edit keeps every other record field |
| Auth.EditAgreesOutside | app/src/main/java/com/konovus/traintogether/presentation/ui/screens/authScreen/AuthViewModel.kt:105-123 | Any editing event keeps every record field but its own |
| Auth.EditFrame | app/src/main/java/com/konovus/traintogether/presentation/ui/screens/authScreen/AuthViewModel.kt:105-123 | Any editing event leaves every field but its own unchanged |
| Auth.ToggleAgreesOutside | app/src/main/java/com/konovus/traintogether/presentation/ui/screens/authScreen/AuthViewModel.kt:125-141 | A toggle keeps every record field but its own flag |
| Auth.ToggleFlips | app/src/main/java/com/konovus/traintogether/presentation/ui/screens/authScreen/AuthViewModel.kt:125-141 | Each visibility toggle and the bottom-sheet toggle negates its flag and emits nothing |
| Auth.ToggleFrame | app/src/main/java/com/konovus/traintogether/presentation/ui/screens/authScreen/AuthViewModel.kt:125-141 | A toggle leaves every field but its own flag unchanged |
| Auth.ToggleTwiceRestores | app/src/main/java/com/konovus/traintogether/presentation/ui/screens/authScreen/AuthViewModel.kt:71-73 | Applying the same toggle twice gives back the original state |
| Auth.ErrorEvents | app/src/main/java/com/konovus/traintogether/presentation/ui/screens/authScreen/AuthViewModel.kt:143-149 | `OnError(m)` sets the error to m and `ClearError` sets it to null; neither emits anything or changes another field |
| Auth.LoginRejections | app/src/main/java/com/konovus/traintogether/presentation/ui/screens/authScreen/AuthViewModel.kt:151-159 | A non-matching e-mail (the empty one included) is rejected as a format error before the password is looked at; then an empty password is rejected; the state is unchanged |
| Auth.LoginCompletes | app/src/main/java/com/konovus/traintogether/presentation/ui/screens/authScreen/AuthViewModel.kt:161-173 | After a started login and its callback, only `isLoading` (now false) and `loginSuccessful` may differ from before; the login spinner is back where it was |
| Auth.LoginOutcome | app/src/main/java/com/konovus/traintogether/presentation/ui/screens/authScreen/AuthViewModel.kt:165-171 | After a login, `loginSuccessful` is true exactly when the service succeeded or it was already true; a failure toasts the reason |
| Auth.RegisterRejected | app/src/main/java/com/konovus/traintogether/presentation/ui/screens/authScreen/AuthViewModel.kt:176-182 | A registration failing validation changes nothing and toasts the first failing check |
| Auth.RegisterCompletes | app/src/main/java/com/konovus/traintogether/presentation/ui/screens/authScreen/AuthViewModel.kt:184-197 | After a started registration and its callback, only `isLoading` and `loginSuccessful` may differ from before |
| Auth.RegisterOutcome | app/src/main/java/com/konovus/traintogether/presentation/ui/screens/authScreen/AuthViewModel.kt:189-195 | After a registration, `loginSuccessful` is true exactly when the service succeeded or it was already true; a failure toasts the reason |
| Auth.ResetBlankEmail | app/src/main/java/com/konovus/traintogether/presentation/ui/screens/authScreen/AuthViewModel.kt:80-83 | A blank reset e-mail only sets the message "Email cannot be empty" |
| Auth.ResetMalformedEmail | app/src/main/java/com/konovus/traintogether/presentation/ui/screens/authScreen/AuthViewModel.kt:84-89 | A non-blank, non-matching reset e-mail only sets the message "Please enter a valid email address" |
| Auth.ResetSent | app/src/main/java/com/konovus/traintogether/presentation/ui/screens/authScreen/AuthViewModel.kt:90-101 | A well-formed reset e-mail ends with only the reset message changed: "Password reset email sent", or "Failed to send reset email. " and the reason |
| Utils.ToNavigationPath | app/src/main/java/com/konovus/traintogether/data/utils/Utils.kt:38-44 | The path is empty exactly for no parameters and otherwise starts with '/' |
| Utils.NavigationPathIsSegments | app/src/main/java/com/konovus/traintogether/data/utils/Utils.kt:38-44 | The joined path equals each parameter preceded by its own '/' |
| Utils.NavigationPathSplits | app/src/main/java/com/konovus/traintogether/data/utils/Utils.kt:38-44 | A path of '/'-free parameters splits back into an empty piece followed by those parameters |
| Utils.Quot | app/src/main/java/com/konovus/traintogether/data/utils/Utils.kt:77-77 | Kotlin's `/` by a positive divisor rounds toward zero: the leftover `a - q * b` is below the divisor in size and has the sign of `a` |
| Utils.Rem | app/src/main/java/com/konovus/traintogether/data/utils/Utils.kt:76-80 | Kotlin's `%` by a positive divisor: quotient times divisor plus remainder is the dividend, the remainder is below the divisor in size and takes the dividend's sign |
| Utils.FormatSecondsToMMss | app/src/main/java/com/konovus/traintogether/data/utils/Utils.kt:76-80 | `formatSecondsToMMss`; `Utils.MMssReadsBack` states what its text means |
| Utils.MMssReadsBack | app/src/main/java/com/konovus/traintogether/data/utils/Utils.kt:76-80 | For a non-negative count the text reads back as minutes and seconds with seconds below 60 that recompose the count. Each piece is the zero-padded `%02d` text of its field, and below 100 minutes the text is five characters |
| Utils.DurationFields | app/src/main/java/com/konovus/traintogether/data/utils/Utils.kt:137-140 | A non-negative duration is hours times 3600 plus minutes times 60 plus seconds, with minutes and seconds below 60 |
| Utils.FormatDuration | app/src/main/java/com/konovus/traintogether/data/utils/Utils.kt:137-149 | `formatDuration`; `Utils.FormatDurationReadsBack` states its three shapes and `Utils.FormatDurationAmbiguous` their overlap |
| Utils.FormatDurationReadsBack | app/src/main/java/com/konovus/traintogether/data/utils/Utils.kt:137-149 | Three fields h, m, s from one hour up when the duration is not a whole minute. Two fields h, m from one hour up on a whole minute. Two fields m, s below one hour. Each recomposes the duration, and each piece is the zero-padded `%02d` text of its field |
| Utils.FormatDurationAmbiguous | app/src/main/java/com/konovus/traintogether/data/utils/Utils.kt:142-148 | One and a half hours and one and a half minutes both print "01:30" |
| Utils.MillisSeconds | app/src/main/java/com/konovus/traintogether/data/utils/Utils.kt:154-154 | The seconds field is `(d % 60000) / 1000` on both branches and below 60 |
| Utils.FormatDurationFromMillis | app/src/main/java/com/konovus/traintogether/data/utils/Utils.kt:151-160 | `formatDurationFromMillis` as written; `Utils.FromMillisShowsTotalMinutes` and `Utils.FromMillisBelowAnHour` state its two branches |
| Utils.FromMillisShowsTotalMinutes | app/src/main/java/com/konovus/traintogether/data/utils/Utils.kt:151-157 | From one hour up the second field is the total number of minutes, 60 or more |
| Utils.FromMillisOneHourOneMinute | app/src/main/java/com/konovus/traintogether/data/utils/Utils.kt:151-157 | 3,660,000 ms prints as "01:61" |
| Utils.FromMillisBelowAnHour | app/src/main/java/com/konovus/traintogether/data/utils/Utils.kt:151-159 | Below one hour the text reads back as minutes and seconds within the duration's last second |
| Utils.FormatDurationFromMillisFixed | app/src/main/java/com/konovus/traintogether/data/utils/Utils.kt:151-160 | The corrected formatter, with minutes within the hour; `Utils.FixedFromMillisReadsBack` and `Utils.FixedAgreesBelowAnHour` state it |
| Utils.FixedFromMillisReadsBack | app/src/main/java/com/konovus/traintogether/data/utils/Utils.kt:151-157 | With minutes reduced modulo 60, the hours and minutes recompose the duration to the minute |
| Utils.FixedAgreesBelowAnHour | app/src/main/java/com/konovus/traintogether/data/utils/Utils.kt:151-159 | The corrected formatter agrees with the original below one hour |
| Utils.CountConsecutiveDates | app/src/main/java/com/konovus/traintogether/data/utils/Utils.kt:98-113 | The loop computes the streak's recursive definition, at most the number of dates and 0 for none |
| Utils.CountedIsChain | app/src/main/java/com/konovus/traintogether/data/utils/Utils.kt:98-113 | The counted dates number as many as the count, appear in input order and form a chain from today, each the same as or one day before the previous |
| Utils.AllCountedIffChain | app/src/main/java/com/konovus/traintogether/data/utils/Utils.kt:98-113 | Every date is counted exactly when the whole list is such a chain from today |
| Utils.StreakWindow | app/src/main/java/com/konovus/traintogether/data/utils/Utils.kt:98-113 | Every counted date lies between today minus the count and today |
| Utils.OneDayInMillis | app/src/main/java/com/konovus/traintogether/data/utils/Utils.kt:121-123 | `oneDayInMillis`; `Utils.OneDayInOtherUnits` states its value in other units |
| Utils.OneDayInOtherUnits | app/src/main/java/com/konovus/traintogether/data/utils/Utils.kt:121-123 | A day is 86,400,000 ms, 24 whole hours, and prints "24:00" through `formatDuration` |
| Actions.ScreenOfRoute | app/src/main/java/com/konovus/traintogether/data/navigation/Actions.kt:15-17 | A screen found from a route text has exactly that route |
| Actions.RoutesDistinct | app/src/main/java/com/konovus/traintogether/data/navigation/Actions.kt:15-17 | The three routes are pairwise different and each is recognised from its text |
| Actions.AllScreensOnce | app/src/main/java/com/konovus/traintogether/data/navigation/Actions.kt:19-22 | `Screens.all` has three entries and holds every screen exactly once |
| Actions.RouteHasNoSlash | app/src/main/java/com/konovus/traintogether/data/navigation/Actions.kt:15-17 | No route contains '/' |
| Actions.Uri | app/src/main/java/com/konovus/traintogether/data/navigation/Actions.kt:42-42 | `route + params.toNavigationPath()` is the route followed by each parameter behind its own '/'. A '/'-free route with '/'-free parameters splits back into the route and the parameters |
| Actions.NavigateTo | app/src/main/java/com/konovus/traintogether/data/navigation/Actions.kt:38-45 | Pops exactly for the empty route or "back" and never does nothing. Otherwise it navigates without options to the route followed by each parameter behind its own '/', and that URI splits back into the route and the parameters when neither holds '/' |
| Actions.NavigateAndClearStack | app/src/main/java/com/konovus/traintogether/data/navigation/Actions.kt:47-55 | Does nothing exactly for the empty route and never pops. Otherwise it navigates to the route followed by each parameter behind its own '/', clearing the stack inclusively and single-top. That URI splits back into the route and the parameters when neither holds '/' |
| Actions.PopIgnoresParams | app/src/main/java/com/konovus/traintogether/data/navigation/Actions.kt:38-41 | The pop does not depend on the parameters |
| Actions.NoParamsNoPath | app/src/main/java/com/konovus/traintogether/data/navigation/Actions.kt:42-44 | Without parameters the URI is the route itself, for both helpers |
| Actions.HelpersAgreeOnUri | app/src/main/java/com/konovus/traintogether/data/navigation/Actions.kt:42-53 | Where both helpers navigate they build the same URI and differ only in the options |
| Actions.UriSplits | app/src/main/java/com/konovus/traintogether/data/navigation/Actions.kt:42-42 | The route followed by the parameter path splits back into the route and the parameters, when neither holds '/' |
| Actions.PathSplits | app/src/main/java/com/konovus/traintogether/data/navigation/Actions.kt:49-49 | With at least one parameter, route plus path splits back into the route and the parameters |
| Actions.ScreenFromUri | app/src/main/java/com/konovus/traintogether/data/navigation/Actions.kt:47-55 | The first piece of a clear-stack URI identifies the screen and the rest are its parameters |

## Left out

- `sendEvent` (AuthViewModel.kt:200-207) is left out. It is a coroutine that
  sends a toast on a channel and suppresses further toasts for 3.5 seconds.
  The model reports each toast in `Reaction.toast`. It does not model the
  channel, the delay, or a toast dropped because another was still showing.
- Auth.Step: the service callback is modelled as running right after its submit,
  with no other event in between. The real callbacks are asynchronous, so
  events arriving while a request is pending are not modelled. Neither are
  spinner states where the flip-back interleaves with another submit.
- The authentication SDK (`auth.signInWithEmailPassword`, `createUserAccount`,
  `resetPassword`) is a foreign call. Its answer is the `AuthReply` input.
- Auth.Validate: `password.length` counts UTF-16 code units and the model
  counts characters. The two differ for characters outside the Basic
  Multilingual Plane.
- Text.IsBlank: the set of whitespace characters is written out as the code
  points the JVM treats as whitespace or space separators. No locale or Unicode
  table is consulted.
- Utils.ToNavigationPath: the parameters are `List<Any>` rendered with
  `toString()`. The model takes the rendered strings as input.
- Utils.FormatSecondsToMMss: `formatSecondsToMMss` takes a 32-bit `Int`, and the
  other formatters take a 64-bit `Long`. Integers here are unbounded, so overflow
  is not modelled. Negative inputs follow Kotlin's truncating division and
  Java's `%02d` sign handling, but only non-negative inputs have read-back
  lemmas. `String.format` uses the default locale; ASCII digits are assumed.
- Utils.CountConsecutiveDates: dates are day numbers and today is a parameter.
  Converting epoch milliseconds to local dates in a time zone, and reading the
  clock (`LocalDate.now`), are not modelled.
- The rest of Utils.kt is not part of this model: `openAppSettings`,
  `getDisplayNameFromUri`, `getTodaysDate`, `isSameDate`, `isSameMonth`,
  `getCurrentDate`, `formatTime`, `ImmutableList`, `Gson.fromJson`,
  `observeWithLifecycle` and `Date.formatToString`. They are Android intents,
  content resolvers, locale-dependent date formatting, the system clock, JSON
  decoding through reflection, and Compose lifecycle collection of a flow.
- Actions.NavigateTo: the `NavHostController` is not called. The helpers return
  the `NavAction` they would perform, and what the controller then does with
  its back stack is not modelled.
- The `Screens` icons are Compose vector images and are left out.
- The Compose UI (screens, forms, bottom sheet, animations) and `Navigation.kt`
  are rendering, not logic.

## Findings

| source | as written | input that shows it | evidently intended | confidence | as-written member | corrected member |
|---|---|---|---|---|---|---|
| app/src/main/java/com/konovus/traintogether/data/utils/Utils.kt:151-157 | From one hour up, `formatDurationFromMillis` prints hours and the total minutes `duration / 60000` | 3,660,000 ms (one hour and one minute) prints "01:61" | The minutes within the hour, `(duration / 60000) % 60`, giving "01:01" | medium, not executed | Utils.FromMillisOneHourOneMinute | Utils.FixedFromMillisReadsBack |
