# Login screen countdown and layout, in Dafny

This project models the logic of the ACUL login screen (`src/screens/login/index.tsx`):

- the **countdown** to the product release: the signed difference between the release instant and
  "now", in integer milliseconds, decomposed into days, hours, minutes and seconds by floor
  division, and clamped to all zeros once the release has passed (module `Countdown`);
- the **countdown state** the component keeps: one `TimeRemaining` record, created as all zeros,
  evaluated once on mount and then replaced wholesale on every one-second tick (module
  `CountdownState`, class `CountdownTimer`);
- the **display** of each field as `String(value).padStart(2, "0")` (module `Display`);
- the **selection logic** of the screen: the separator flag (at least one alternate connection),
  the `||` fallbacks for the separator text and the page title, `renderSocialLogins`, and the
  order of the login card's sections depending on whether the social-buttons layout token is
  exactly `"top"` (modules `Layout` and `LoginScreen`).

The arithmetic is stated on unbounded integers. The source only divides when the difference is
positive, so JavaScript's `Math.floor(a / b)` and `%` agree there with Dafny's `/` and `%`.
Strings are `seq<char>`. A JavaScript value that may be `undefined` is an `Option`.

Properties proved include the following.

- The countdown is never negative, hours stay below 24, and minutes and seconds below 60.
- `days` is the difference divided by 86 400 000.
- The round trip `days*86400000 + hours*3600000 + minutes*60000 + seconds*1000 == difference - difference % 1000` holds.
- The inverse round trip holds: decomposing the total of a normalized record gives the record back.
- The decomposition is the only normalized record with that total.
- A positive difference under one second gives all zeros, and 90 061 000 ms gives (1, 1, 1, 1).
- An evaluation exactly 1000 ms later shows exactly one second less, until the countdown reaches zero.
- The countdown never increases as time moves forward.
- A padded cell reads back as its value.
- The separator is in the card exactly when there is an alternate connection.
- The alternative logins appear exactly once, and the layout token only reorders the card.

Every function here is deterministic, so evaluating the countdown twice with the same `now` gives
the same record.

## Model

| member | source | states |
|---|---|---|
| `Countdown.Decompose` | src/screens/login/index.tsx:48-71 | the result is never negative and keeps hours < 24, minutes < 60, seconds < 60; a difference <= 0 gives exactly all zeros; a positive one gives `days == difference / 86400000` with no upper bound |
| `Countdown.CalculateTimeRemaining` | src/screens/login/index.tsx:45-72 | one evaluation at `now` is the decomposition of `release - now`, always normalized; an unparsable release date (NaN difference) gives all zeros |
| `Countdown.WholeSecondsMs` | src/screens/login/index.tsx:56 | the difference rounded down to whole seconds lies within one second below it and is a multiple of 1000 |
| `Countdown.DecomposeRoundTrip` | src/screens/login/index.tsx:51-56 | the four fields add back up to the positive difference with its sub-second part dropped |
| `Countdown.FieldsOfTotal` | src/screens/login/index.tsx:51-56 | the floor divisions of the source recover every field of a normalized record from the milliseconds it stands for |
| `Countdown.RecomposeRoundTrip` | src/screens/login/index.tsx:51-56 | decomposing the total of any normalized record gives that record back |
| `Countdown.DecomposeUnique` | src/screens/login/index.tsx:50-56 | for a positive difference, a normalized record equals the decomposition if and only if its total is the difference rounded down to whole seconds |
| `Countdown.SubSecondIsZero` | src/screens/login/index.tsx:50-56 | a positive difference below 1000 ms decomposes to all zeros |
| `Countdown.OneOfEachUnit` | src/screens/login/index.tsx:51-56 | 90 061 000 ms decomposes to one day, one hour, one minute and one second |
| `Countdown.ShownMs` | src/screens/login/index.tsx:58-70 | the milliseconds an evaluation shows are non-negative and a whole number of seconds |
| `Countdown.ShownIsClampedRemaining` | src/screens/login/index.tsx:48-70 | the shown time is the remaining time rounded down to whole seconds when the release is ahead, and 0 otherwise |
| `Countdown.TickShowsOneSecondLess` | src/screens/login/index.tsx:45-75 | an evaluation exactly 1000 ms later shows exactly one second less, or 0 once less than a second was shown |
| `Countdown.LateTickSkipsASecond` | src/screens/login/index.tsx:75 | with no drift correction, a tick 4 ms late after a display of 5 s shows 3 s: the display skips a second |
| `Countdown.WholeSecondsMonotone` | src/screens/login/index.tsx:56 | rounding down to whole seconds preserves the order of differences |
| `Countdown.ShownNonIncreasing` | src/screens/login/index.tsx:45-72 | as `now` moves forward the shown countdown never increases |
| `CountdownState.CountdownTimer.constructor` | src/screens/login/index.tsx:37-42 | the state starts as all zeros with the release instant fixed |
| `CountdownState.CountdownTimer.Tick` | src/screens/login/index.tsx:58-70 | all four fields are replaced by the evaluation at `now`, whatever they held; the state stays normalized and the release instant is unchanged |
| `CountdownState.Mount` | src/screens/login/index.tsx:37-74 | a fresh timer, evaluated once immediately, holds the evaluation at the mount instant |
| `Display.Digits` | src/screens/login/index.tsx:124 | `String(n)` of a natural number is a non-empty run of digits with a leading `'0'` only for 0, and one digit exactly when n < 10 |
| `Display.DecimalString` | src/screens/login/index.tsx:124 | `String(n)` is a non-empty string that starts with `-` exactly when n is negative, with only digits after that sign |
| `Display.PadStart` | src/screens/login/index.tsx:124 | `padStart(width, fill)` leaves a string at least `width` long unchanged and otherwise prefixes fill characters up to exactly `width`; the original string is the suffix (lengths in characters, which agree with UTF-16 units on the digit strings padded here) |
| `Display.FormatField` | src/screens/login/index.tsx:124 | a cell is `max(2, length of String(n))` characters long, all digits for a non-negative value, and exactly two characters for a value from 0 to 99 |
| `Display.Cells` | src/screens/login/index.tsx:121-146 | the countdown shows four cells; the days cell is at least two characters and, for a normalized record, the hours, minutes and seconds cells are exactly two |
| `Display.ParseDigitsOfDigits` | src/screens/login/index.tsx:124 | reading the decimal digits back gives the number |
| `Display.DecimalStringReadBack` | src/screens/login/index.tsx:124 | `String(n)` reads back as n: its digits give n, or -n after the minus sign of a negative n |
| `Display.ParseLeadingZero` | src/screens/login/index.tsx:124 | the zero that `padStart` adds does not change the number the cell reads as |
| `Display.FormatSingleDigit` | src/screens/login/index.tsx:124 | a value 0-9 shows as `'0'` followed by its digit |
| `Display.FormatSeveralDigits` | src/screens/login/index.tsx:124 | a value >= 10 shows as its plain decimal string |
| `Display.FormatRoundTrip` | src/screens/login/index.tsx:124 | every cell of a non-negative value is all digits and reads back as the value |
| `Display.CellsReadBack` | src/screens/login/index.tsx:121-146 | each cell of a non-negative countdown is all digits and reads back as its own field: days, hours, minutes, seconds in that order |
| `Layout.OrElse` | src/screens/login/index.tsx:28-29 | `a \|\| b` is `a` when `a` is a non-empty string and `b` otherwise; the result is truthy iff either input is |
| `Layout.SeparatorText` | src/screens/login/index.tsx:28 | the separator text is `texts.separatorText` when non-empty, else `locales.page.orText` (absent when any link of the chain is absent) |
| `Layout.PageTitle` | src/screens/login/index.tsx:29 | the page title is `texts.pageTitle` when non-empty, else `locales.page.title` |
| `Layout.ShowSeparator` | src/screens/login/index.tsx:26 | the separator is shown iff `alternateConnections` is present and non-empty |
| `Layout.SocialLogins` | src/screens/login/index.tsx:80-90 | the social block holds the alternative logins once plus the separator (with the separator text) exactly when shown; for "top" the alternative logins come first and the separator second, for "bottom" the separator first and the alternative logins last |
| `Layout.CardSections` | src/screens/login/index.tsx:155-161 | the card starts with the header and has four sections plus the separator when shown |
| `Layout.CardOrder` | src/screens/login/index.tsx:155-161 | for the token exactly "top" the card is Header, AlternativeLogins, [Separator], LoginForm, Footer; for any other token or none it is Header, LoginForm, Footer, [Separator], AlternativeLogins |
| `Layout.CardContents` | src/screens/login/index.tsx:155-161 | whatever the token, the card holds header, alternative logins, login form and footer once each, plus the separator when shown |
| `Layout.CardCounts` | src/screens/login/index.tsx:80-90 | the alternative logins appear once; a separator with text t appears once iff it is shown with that text, never otherwise |
| `Layout.AlignmentOnlyReorders` | src/screens/login/index.tsx:155-161 | two layout tokens give cards with the same sections, the alternative logins exactly once |
| `LoginScreen.Render` | src/screens/login/index.tsx:92-165 | a render shows four countdown cells and a card that starts with the header |
| `LoginScreen.RenderOfTimer` | src/screens/login/index.tsx:29-146 | for the state a timer holds, the rendered title is the page-title fallback, every countdown cell reads back as the timer's matching field, and the hours, minutes and seconds cells are two characters |
| `LoginScreen.SeparatorShownIffConnections` | src/screens/login/index.tsx:26-87 | in a render the separator with the resolved separator text appears once iff there is at least one alternate connection, no other separator appears, and the alternative logins appear once |

## Left out

- The `setInterval`/`clearInterval` scheduling and the wall clock: each tick's instant is a parameter of `Tick`, and cancellation on unmount is not modelled.
- The parsing of `"2026-07-04T00:00:00"`: the release instant is a parameter, since the date is read in the host's local time zone. An unparsable date, whose NaN difference makes the source show zeros, is the `None` release.
- Tick timing: the model says nothing about when `setInterval` fires. Ticks that drift late (see `Countdown.LateTickSkipsASecond`) can skip a displayed second, and a clock adjusted backwards between ticks makes the display go up; each tick simply re-evaluates at its own instant.
- JavaScript numbers are doubles: the model uses unbounded integers. `Date` instants are integers within ±8.64e15 ms, so the arithmetic is exact there and `String` never switches to exponent notation.
- React rendering, hooks, JSX, Tailwind classes, the static promotional copy and the child components (Header, LoginForm, Footer, AlternativeLogins, the ULTheme components): these are presentation and appear only as the `Section` they stand for.
- The `document.title` assignment itself: only the choice of the title string is modelled, and what the DOM does with a missing title is not.
- `applyAuth0Theme`, `extractTokenValue` and `useLoginManager` call into the ACUL SDK and theme utilities, which are not part of this model. Their results (the session texts, locales and connections, and the resolved layout token) are inputs.
