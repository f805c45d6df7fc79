# Valentine proposal card, modelled in Dafny

The card asks "Will you be my Valentine?" and offers two buttons. Each
click on No counts a decline, plays a pop and grows the Yes button by 0.4;
after four declines the No button is gone. A click on Yes plays a ding and
switches to the success screen. That screen plays an arpeggio when it
mounts and counts down to the next 14 February.

The project has three modules, one per core source file:

- `ProposalScreen` (`proposal_screen.dfy`): the card's pure display rules.
  These are the subtext line for a decline count, which buttons are
  rendered, which emoji is shown, the scale the Yes button's animation
  starts from, and whether the glow is shown.
- `App` (`app.dfy`): the three state fields `accepted`, `noCount` and
  `yesScale`. They live in the class `AppState`, whose methods
  `HandleNoClick`, `HandleYesClick` and `Click` update them in place.
  Each method is proved against a pure specification on a `State` value
  (`Decline`, `Accept`, and the render-gated `Step`). Lemmas about runs of
  clicks (`Run`, `Trace`) prove what holds for a whole session in the
  model, where a button that leaves the screen takes no further clicks:
  every reachable state has `yesScale = 1 + 0.4·noCount` and
  `noCount ≤ 4`, every such state is reached, acceptance is absorbing,
  and the success cue plays at most once. The exit animations, which keep
  a leaving button clickable for a moment, are outside the model (see
  "Left out").
- `SuccessScreen` (`success_screen.dfy`): choosing the target date, the
  duration split done on every tick, and the two-digit formatting of each
  unit. `CalculateTimeLeft` follows the source's expression shape: divide,
  take the remainder with JavaScript's `%`, then floor, all on exact
  reals. It is proved equal to the integer decomposition `Decompose`.
  `Decompose` is proved to be the unique in-range split that adds back up
  to the duration.

Scales and the countdown's divisions are exact `real`s and integers. The
clock is a parameter: `CalculateTimeLeft` takes the target and current
instants in milliseconds, and `TargetDate` takes the current local date
and time. The sound player is reduced to the cues (`Pop`, `Ding`,
`Success`) that each click emits.

`components/SuccessScreen.tsx:21` compares with a strict `now > vDay`, so
at 14 February midnight exactly the current year is kept
(`SuccessScreen.TargetAtValentineMidnight`).

## Model

| member | source | states |
|---|---|---|
| `ProposalScreen.Subtext` | components/ProposalScreen.tsx:48-55 | definition, no contract: the if-chain on the decline count; its promise is carried by `ProposalScreen.SubtextFallbackOnlyBelowZero` and `ProposalScreen.SubtextDistinguishesCappedCount` |
| `ProposalScreen.SubtextFallbackOnlyBelowZero` | components/ProposalScreen.tsx:48-55 | the last-resort subtext is returned exactly for negative counts, so never for a natural count |
| `ProposalScreen.SubtextDistinguishesCappedCount` | components/ProposalScreen.tsx:48-53 | counts 0, 1, 2 and 3 each get their own line and every count from 4 on gets the take-over line: two counts share a subtext iff they agree once capped at 4 |
| `ProposalScreen.NoButtonVisible` | components/ProposalScreen.tsx:169 | definition, no contract: the No button is rendered while fewer than four declines happened; its promise is carried by `ProposalScreen.ShownEmoji` and `App.RunFromInitialReachable` |
| `ProposalScreen.Offers` | components/ProposalScreen.tsx:169-185 | definition, no contract: Yes is always rendered, No while visible; its promise is carried by `App.ProposalDeliversOfferedClicks` |
| `ProposalScreen.ShownEmoji` | components/ProposalScreen.tsx:138-142 | the teddy bear is shown iff the No button is rendered (line 169), otherwise the face holding back tears (U+1F979) |
| `ProposalScreen.InitialYesScale` | components/ProposalScreen.tsx:188 | the Yes button's starting scale is the larger of 1 and yesScale − 0.4: at least both, equal to one of them, and no more than yesScale when yesScale ≥ 1 |
| `ProposalScreen.GlowVisible` | components/ProposalScreen.tsx:221 | definition, no contract: the glow is shown while the scale exceeds 2; its promise is carried by `App.GlowFromThirdDecline` |
| `App.ScaleFor` | App.tsx:61-66 | the scale after n declines is at least 1, and equals 1 exactly when n = 0 |
| `App.ScaleStrictlyIncreasing` | App.tsx:66 | more declines give a strictly larger scale |
| `App.Decline` | App.tsx:63-67 | a decline adds exactly one to noCount, strictly grows yesScale and leaves accepted alone |
| `App.Accept` | App.tsx:69-73 | accepting sets accepted and leaves noCount and yesScale untouched |
| `App.AcceptIdempotent` | App.tsx:69-73 | accepting again after accepting changes nothing |
| `App.HandlersKeepScaleInvariant` | App.tsx:59-67 | yesScale = 1 + 0.4·noCount holds after either handler iff it held before |
| `App.ScreenOf` | App.tsx:80-93 | definition, no contract: the proposal card while not accepted, the success screen after; its promise is carried by `App.CelebrationIgnoresClicks` and `App.ProposalDeliversOfferedClicks` |
| `App.Delivered` | App.tsx:80-93 | definition, no contract: a click reaches its handler iff the card is on screen and renders that button (components/ProposalScreen.tsx:169); its promise is carried by `App.CelebrationIgnoresClicks` and `App.ProposalDeliversOfferedClicks` |
| `App.Step` | App.tsx:80-93 | definition, no contract: a delivered No declines, a delivered Yes accepts, anything else changes nothing; its promise is carried by `App.CelebrationIgnoresClicks`, `App.ProposalDeliversOfferedClicks`, `App.StepKeepsReachable` and `App.AppState.Click` |
| `App.CelebrationIgnoresClicks` | App.tsx:80-93 | once accepted the success screen is shown, and a click on either button reaches no handler, changes nothing and plays no cue |
| `App.ProposalDeliversOfferedClicks` | components/ProposalScreen.tsx:169-185 | while the card is shown, Yes always reaches its handler and accepts; No reaches its handler and declines iff fewer than four declines happened, and otherwise changes nothing |
| `App.Cues` | App.tsx:63-92 | the success arpeggio plays iff the click turns accepted from false to true; a click plays nothing iff it changes nothing |
| `App.Initial` | App.tsx:59-61 | definition, no contract: not accepted, no declines, scale 1; its promise is carried by `App.InitialReachable` |
| `App.InitialReachable` | App.tsx:59-61 | the mount state is not accepted, has no declines and scale 1, and is reachable |
| `App.StepKeepsReachable` | App.tsx:80-93 | one click through the render gate keeps the scale invariant and noCount ≤ 4 |
| `App.RunKeepsReachable` | App.tsx:63-93 | any sequence of clicks from a reachable state ends in a reachable state |
| `App.RunFromInitialReachable` | components/ProposalScreen.tsx:169-173 | from mount, noCount never exceeds 4 and yesScale stays 1 + 0.4·noCount |
| `App.AcceptedIsAbsorbing` | App.tsx:80-93 | once accepted, no click changes the state and no cue plays |
| `App.RunMonotone` | App.tsx:63-73 | along any click sequence noCount and yesScale never decrease and accepted never reverts |
| `App.DeclinesFromInitial` | App.tsx:59-67 | from mount, n ≤ 4 clicks on No give n declines with scale 1 + 0.4·n, not accepted |
| `App.ReachableStatesAreReached` | App.tsx:59-93 | every reachable state is reached from mount by noCount declines, then Yes if accepted |
| `App.SuccessPlayedOnce` | components/SuccessScreen.tsx:82-92 | over a session the arpeggio plays once if the session ends accepted from a non-accepted start, otherwise never |
| `App.InitialScaleIsPreviousScale` | components/ProposalScreen.tsx:188-189 | with App's scale, the Yes button starts from the previous decline's scale, or from 1 before any decline |
| `App.GlowFromThirdDecline` | components/ProposalScreen.tsx:221 | with App's scale, the glow is shown iff at least three declines happened |
| `App.ThreeDeclinesThenAccept` | App.tsx:63-73 | three declines then Yes gives accepted, three declines, scale 2.2; a second Yes changes nothing |
| `App.AppState.constructor` | App.tsx:59-61 | the fields start as not accepted, zero declines and scale 1 |
| `App.AppState.HandleNoClick` | App.tsx:63-67 | plays pop, adds one to noCount and 0.4 to yesScale, leaves accepted; keeps the scale invariant iff it held |
| `App.AppState.HandleYesClick` | App.tsx:69-73 | plays ding, sets accepted, leaves noCount and yesScale |
| `App.AppState.Click` | App.tsx:80-93 | a click changes the fields as the gated step does and plays its cues; reachable states stay reachable |
| `SuccessScreen.Later` | components/SuccessScreen.tsx:21 | definition, no contract: the field-by-field comparison of local date-times; its promise is carried by `SuccessScreen.LaterIsStrictTotalOrder` |
| `SuccessScreen.LaterIsStrictTotalOrder` | components/SuccessScreen.tsx:21 | the date-time comparison is irreflexive, asymmetric, transitive and total |
| `SuccessScreen.ValentineOf` | components/SuccessScreen.tsx:20-22 | definition, no contract: midnight at the start of 14 February of a year (month index 1 in the source's zero-based months); its promise is carried by `SuccessScreen.TargetDate` and `SuccessScreen.TargetIsNextOccurrence` |
| `SuccessScreen.TargetDate` | components/SuccessScreen.tsx:17-25 | the target is 14 February midnight of the current or the next year and is never earlier than now |
| `SuccessScreen.TargetIsNextOccurrence` | components/SuccessScreen.tsx:17-25 | no 14 February midnight that is not before now comes earlier than the target |
| `SuccessScreen.TargetYear` | components/SuccessScreen.tsx:19-23 | the current year is kept iff now is not after its 14 February midnight, otherwise the next year is taken |
| `SuccessScreen.TargetAtValentineMidnight` | components/SuccessScreen.tsx:21 | at 14 February midnight itself the target is that instant, because the comparison is strict |
| `SuccessScreen.TargetExamples` | components/SuccessScreen.tsx:17-25 | 13 February 2024 targets 14 February 2024; 15 February 2024 and 14 February 2024 00:00:00.001 target 14 February 2025 |
| `SuccessScreen.Decompose` | components/SuccessScreen.tsx:33-36 | hours < 24, minutes < 60, seconds < 60, and days·86400000 + hours·3600000 + minutes·60000 + seconds·1000 + d mod 1000 = d |
| `SuccessScreen.DecomposeUnique` | components/SuccessScreen.tsx:33-36 | any in-range units that add up to d less a sub-second rest are the decomposition |
| `SuccessScreen.Trunc` | components/SuccessScreen.tsx:34-36 | the integer part toward zero, as JavaScript's `%` uses it: for x ≥ 0 it is at most x and within one below, for x < 0 at least x and within one above |
| `SuccessScreen.JsRemainder` | components/SuccessScreen.tsx:34-36 | JavaScript's `%` on exact reals: for a positive divisor the remainder lies in [0, m) for a non-negative dividend and in (−m, 0] for a negative one |
| `SuccessScreen.RemainderBounds` | components/SuccessScreen.tsx:34-36 | x − m·trunc(x / m) is within m of zero on the dividend's side, for a positive divisor |
| `SuccessScreen.FloorOfRemainder` | components/SuccessScreen.tsx:34-36 | flooring JavaScript's `%` of n / k by m, on exact reals, gives the integer (n div k) mod m |
| `SuccessScreen.UnitExpressions` | components/SuccessScreen.tsx:33-36 | for a positive difference, each of the four floor expressions equals the integer division or remainder it stands for |
| `SuccessScreen.CalculateTimeLeft` | components/SuccessScreen.tsx:27-40 | a target not in the future gives all zeros; otherwise the source's divide, remainder and floor expressions equal the integer decomposition of the difference |
| `SuccessScreen.TimeLeftBounds` | components/SuccessScreen.tsx:29-37 | every tick's units are in range and, for a future target, add back up to the difference less its sub-second part |
| `SuccessScreen.TimeLeftExample` | components/SuccessScreen.tsx:33-36 | 90,061,000 ms gives one day, one hour, one minute and one second |
| `SuccessScreen.DecimalString` | components/SuccessScreen.tsx:55 | a natural's decimal string is non-empty, all digits, one digit long iff the value is below 10, and starts with 0 only for 0 |
| `SuccessScreen.DecimalRoundTrip` | components/SuccessScreen.tsx:55 | reading the decimal string back gives the number |
| `SuccessScreen.PadStart` | components/SuccessScreen.tsx:55 | the result is max(length, target) long, ends with the original string and is fill characters before it |
| `SuccessScreen.FormatUnit` | components/SuccessScreen.tsx:55 | "0" is prepended exactly for values below 10, otherwise the decimal string is unchanged; the result has at least two digits and reads back as the value |
| `SuccessScreen.TwoDigitsBelowHundred` | components/SuccessScreen.tsx:55 | values below 100 are shown with exactly two digits |
| `SuccessScreen.FormatExamples` | components/SuccessScreen.tsx:55 | 0, 7, 42 and 365 are shown as "00", "07", "42" and "365" |
| `SuccessScreen.CountdownView` | components/SuccessScreen.tsx:71-74 | the four boxes show days, hours, minutes and seconds, each with at least two digits that read back as the unit |
| `SuccessScreen.CountdownViewNoExtraZero` | components/SuccessScreen.tsx:55-74 | no box of the countdown has a zero in front unless it is exactly two digits long |
| `SuccessScreen.CanonicalDecimal` | components/SuccessScreen.tsx:55 | a digit string with no zero in front (or the single digit 0) is the decimal string of the number it reads as |
| `SuccessScreen.ShownDigitsAreFormatted` | components/SuccessScreen.tsx:55 | a box that reads back as a value and has no extra zero in front holds exactly that value padded to two digits; with `CountdownView` and `CountdownViewNoExtraZero` this fixes every box's string |
| `SuccessScreen.SubDayUnitsShowTwoDigits` | components/SuccessScreen.tsx:71-74 | for in-range units, the hours, minutes and seconds boxes have exactly two digits |

## Left out

- `playSound` (App.tsx:9-56) is reduced to the cue it is handed (`Pop`, `Ding`, `Success`). The oscillators, gains, frequencies, ramps and the audio context are output only.
- FloatingHearts, the Sparkle particles, the confetti array and its random fields, and all other animation and transition parameters are left out; the Yes button's starting scale is modelled by `ProposalScreen.InitialYesScale`. They are random or cosmetic and no state depends on them.
- The hover and tap scales (`yesScale * 1.05`, `yesScale * 0.95`) and the `isHovered` flag are left out as cosmetic.
- Floating point is not modelled. `yesScale` and the countdown's divisions are exact reals, so accumulated rounding of `+ 0.4` and rounding in `/` and `%` are not captured.
- The conversion between a local date and epoch milliseconds is not modelled. That covers time zone, daylight-saving time and month lengths. `TargetDate` compares local date-times field by field, and `CalculateTimeLeft` takes both instants in milliseconds from the caller.
- The one-second `setInterval` that re-runs `calculateTimeLeft`, and its clean-up, are left out. They are timer scheduling with no logic of their own; each tick is `CalculateTimeLeft` at the tick's time.
- `window.location.reload()` and the remote image are browser and network effects. A reload starts over from `App.Initial`.
- Exit animations are not modelled: an element removed from the screen is treated as gone at once. In the source the leaving element stays mounted, with its click handler, while it fades out. The No button keeps its `onClick` during its exit (components/ProposalScreen.tsx:168-179: exit at line 172, handler at line 173), and the proposal card stays on screen during its exit after acceptance (App.tsx:79-87). A click in that window reaches the handler. So a fifth decline can push `noCount` to 5 and grow `yesScale` again, and an accepted state can still gain declines and pop or ding cues. `App.RunFromInitialReachable`, `App.AcceptedIsAbsorbing` and `App.Cues` hold for the model, where removal is immediate, and not for every click sequence a user can produce during those animations.
- `ProposalScreen.Subtext` takes an integer count. A fractional count, which the props' number type would allow but App never passes, is not modelled.
- `SuccessScreen.DecimalString` models `toString` for naturals in positional notation. The exponent notation used from 10^21 on is not modelled.
- `SuccessScreen.CountdownView` does not state the four captions in its contract. They are fixed literals in its body. That no box has an extra zero in front is stated beside it, in `SuccessScreen.CountdownViewNoExtraZero`.
