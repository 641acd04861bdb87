# Sport website page logic in Dafny

`script.js` drives a sports club's single page. Most of it wires DOM events
to DOM updates. Four pieces of it are decision logic, and this project models
those four and proves what they promise:

- **Match countdown** (`setupCountdowns.updateAll`). It maps a match's target
  instant and the current instant to the text on the card: `TBD`, `Finished`,
  or `[Nd ]HHh MMm SSs`.
- **Stat counters** (`setupStatCounters.updateCount`). Each tick adds
  `ceil(target / 200)` while the count is below the target, then settles the
  display on exactly the target.
- **Contact form** (`setupContactForm`). It covers the three trimmed-input
  checks, the error text each field shows, the `input` handler, and the
  submit guard with its reset and success line.
- **Theme** (`applyTheme`, `setupTheme`). It covers the start-up choice
  between the stored theme and the system preference, and the click toggle
  that flips the theme and persists it.

Modules, one per file:

- `Wrappers` (`wrappers.dfy`): `Option`.
- `Text` (`text.dfy`): the JavaScript string primitives the page relies on. These are the whitespace set, `trim`, UTF-16 `length`, `String(n)`, `padStart` and `join`.
- `Countdown` (`countdown.dfy`): decomposition of the remaining time, rendering, and a reader that inverts the rendering.
- `StatCounter` (`statcounter.dfy`): ceiling division, the tick, and the sequence of values shown.
- `ContactForm` (`contactform.dfy`): field checks, the email pattern, validation and the form events.
- `Theme` (`theme.dfy`): page classes, icon, store, start-up and toggle.

Instants, differences and counts are exact integers. Strings are sequences
of Unicode code points. JavaScript's `length` counts UTF-16 code units, and
this is modelled by `Text.Utf16Length`. Inputs the script gets from the
browser become parameters:

- the parsed `Date` becomes an `Option<int>` of milliseconds;
- the current time becomes an `int`;
- `localStorage` becomes a `map<string, string>`;
- `matchMedia('(prefers-color-scheme: light)')` becomes a `bool`.

The message's own error text promises "min 6 characters" (script.js:202).
Both the name and the message check compare `trim().length`, which counts
UTF-16 code units, so an astral character counts twice. The model follows
the code. `ContactForm.LongEnoughCountsChars` shows that the two readings
agree on text without astral characters.

## Model

| member | source | states |
|---|---|---|
| `Countdown.Decompose` | script.js:168-172 | the hours are below 24 and the minutes and seconds below 60; the components weighted by day/hour/minute/second lengths make up the difference to within the sub-second remainder |
| `Countdown.DecomposeUnique` | script.js:168-172 | any in-range days/hours/minutes/seconds that make up the difference to within a second are exactly the ones the script computes |
| `Countdown.Pad2` | script.js:176-178 | `String(n).padStart(2,'0')` puts a `0` in front of a one-digit decimal form and leaves a longer one as it is |
| `Countdown.Pad2Value` | script.js:176-178 | for a value below 100, the padded text is two decimal digits denoting `n` |
| `Countdown.ClockShape` | script.js:176-180 | the clock is eleven characters: the padded hours, `h `, the padded minutes, `m `, the padded seconds and `s`, with no `d` |
| `Countdown.Render` | script.js:174-180 | `parts.join(' ')` is the clock alone when the day count is zero, and otherwise the decimal day count, `d`, a space, then the clock |
| `Countdown.PartsSpaceFree` | script.js:174-178 | no pushed part contains a space, so the spaces in the text are exactly the separators |
| `Countdown.RenderShape` | script.js:174-180 | there are 3 parts when the day count is zero and 4 otherwise; a `d` appears iff the day count is non-zero; a day segment has no leading zero; the text holds exactly one space fewer than it has parts |
| `Countdown.ParseRender` | script.js:168-180 | a rendering loses nothing: reading it back yields the same days, hours, minutes and seconds |
| `Countdown.CountdownText` | script.js:160-181 | the text is `TBD` iff the target did not parse, `Finished` iff the target is at or before now, and otherwise the rendering of the decomposed remaining milliseconds; no rendering equals either sentinel, and with `Countdown.ParseRender` the shown text reads back as the remaining time |
| `Countdown.UnderOneSecond` | script.js:166-180 | a target less than a second ahead shows `00h 00m 00s` |
| `Countdown.NinetySeconds` | script.js:166-180 | a target ninety seconds ahead shows `00h 01m 30s` |
| `Countdown.DecomposeSubSecond` | script.js:168-172 | a difference below one second decomposes to all zeros |
| `Text.Trim` | script.js:199-202 | `trim` keeps a core with only whitespace before and after it and no whitespace at either end of the core |
| `Text.TrimUnique` | script.js:199-202 | any split into leading whitespace, such a core and trailing whitespace gives the same core as `trim` |
| `Text.TrimIdempotent` | script.js:199-202 | trimming a trimmed value changes nothing |
| `Text.Utf16Length` | script.js:199-202 | `length` is between the number of code points and twice that, and equals it when no code point is astral |
| `Text.NatToString` | script.js:175-176 | `String(n)` is a non-empty string of decimal digits; it starts with `0` only for zero, and it is one digit long exactly below ten |
| `Text.NatToStringRoundTrip` | script.js:175-176 | the decimal text of a number denotes that number |
| `Text.PadStart` | script.js:176-178 | `padStart` leaves a string at least as long as the width unchanged; otherwise it fills on the left up to the width and keeps the original as the suffix (widths in code points, which agree with UTF-16 units on the digit strings padded here) |
| `Text.Join` | script.js:180 | `join` of no parts is empty; otherwise its length is the parts' total plus one separator per gap |
| `Text.JoinEnds` | script.js:180 | the first part opens the joined text and the last part closes it |
| `Text.JoinSeparatorCount` | script.js:180 | joining parts that do not contain the separator character puts exactly one separator between each pair of neighbours |
| `StatCounter.CeilDiv` | script.js:232 | `Math.ceil(a / b)` is the quotient `q` with `(q - 1) * b < a <= q * b` |
| `StatCounter.CeilDivUnique` | script.js:232 | no other quotient satisfies that bound |
| `StatCounter.Increment` | script.js:223-232 | the per-tick increment is `ceil(target / 200)`: the quotient `q` with `(q - 1) * 200 < target <= q * 200` |
| `StatCounter.IncrementSign` | script.js:223-232 | the increment is at least 1 exactly when the target is positive |
| `StatCounter.Step` | script.js:233-234 | a tick continues exactly when the count is below the target, and a settling tick shows exactly the target |
| `StatCounter.StepAdvances` | script.js:232-233 | below a positive target, a tick strictly raises the count and lands below the target plus one increment |
| `StatCounter.StepStalls` | script.js:232-233 | below a target of zero or less, a tick continues without raising the count |
| `StatCounter.Run` | script.js:229-236 | the ticks end; the last value shown is exactly the target; every earlier value lies between the start and the target plus one increment; those values rise strictly and all but the last are below the target |
| `StatCounter.RunSettled` | script.js:234 | a count already at or past the target shows the target at once |
| `StatCounter.RunShape` | script.js:229-236 | below a positive target the counter shows `count + inc`, `count + 2*inc`, … for exactly `ceil((target - count) / inc)` ticks, then the target |
| `StatCounter.Overshoot` | script.js:232-234 | the last value before settling exceeds the target iff the increment does not divide the distance |
| `StatCounter.ExactNeverExceeds` | script.js:232-234 | when the increment divides the distance, no value shown exceeds the target |
| `StatCounter.MultipleOfSpeed` | script.js:223-236 | from zero, a target that is a multiple of 200 is reached in exactly 200 increments without showing more than the target |
| `StatCounter.OvershootExample` | script.js:232-234 | counting from 200 toward 201 shows 202 before settling on 201 |
| `ContactForm.LongEnough` | script.js:199-202 | the name/message test (empty trimmed value, or trimmed length below the minimum) rejects exactly the values whose trimmed length is below the minimum; the emptiness test is subsumed |
| `ContactForm.NameValid` | script.js:199 | a name passes iff its trimmed value is at least 2 UTF-16 code units long; a blank name never passes |
| `ContactForm.MessageValid` | script.js:202 | a message passes iff its trimmed value is at least 6 UTF-16 code units long; a blank message never passes |
| `ContactForm.EmailValid` | script.js:200-201 | an email passes iff `^[^\s@]+@[^\s@]+\.[^\s@]+$` matches its trimmed value, which then holds exactly one `@` |
| `ContactForm.LongEnoughCountsChars` | script.js:199-202 | without astral characters, the length test compares the number of trimmed characters |
| `ContactForm.BlankRejected` | script.js:199-202 | an empty or whitespace-only name or message is rejected |
| `ContactForm.EmailShapedIffPattern` | script.js:200-201 | `^[^\s@]+@[^\s@]+\.[^\s@]+$` accepts exactly `L@D`: `L` is non-empty and free of whitespace and `@`; `D` is free of whitespace and `@` and has a dot that is neither its first nor its last character |
| `ContactForm.EmailHasOneAt` | script.js:200-201 | an accepted address contains exactly one `@` |
| `ContactForm.Validate` | script.js:197-204 | validation passes iff all three fields pass; each error text is empty iff its field passes, and otherwise it is that field's message |
| `ContactForm.OkIffNoErrors` | script.js:197-204 | validation passes exactly when all three error texts are empty |
| `ContactForm.ErrorsIndependent` | script.js:197-204 | the checks do not short-circuit: each field's error text depends on that field alone |
| `ContactForm.OnInput` | script.js:206 | an edit recomputes every error text from the new values and clears the success line |
| `ContactForm.OnSubmit` | script.js:208-215 | a submit is accepted iff validation passes; an accepted form is blank, error-free and shows the success line (nothing is transmitted); a refused one keeps its values and its success line and shows the errors |
| `ContactForm.OnSuccessTimeout` | script.js:214 | the delayed callback clears the success line and nothing else |
| `ContactForm.BlankInvalid` | script.js:197-204 | a blank form fails all three checks and shows all three error texts |
| `ContactForm.ResubmitRefused` | script.js:208-212 | right after an accepted submit, an immediate second submit is refused and shows all three errors |
| `ContactForm.AcceptedOnlyWhenValid` | script.js:208-211 | no submit is accepted unless all three fields pass, and the success line appears only through an accepted submit |
| `Theme.CurrentTheme` | script.js:57 | the theme read from the body is `light` or `dark`; on a consistent body it names the class present |
| `Theme.ApplyTheme` | script.js:42-47 | exactly one theme class remains; any value other than `light` selects dark; other classes and the store are untouched; an icon element shows the matching icon |
| `Theme.ApplyThemeIdempotent` | script.js:42-47 | applying the same theme twice is applying it once |
| `Theme.InitialTheme` | script.js:50-52 | the start-up theme is `light` or `dark`, and it is light iff the store holds `light`, or holds no valid theme and the system prefers light |
| `Theme.SavedThemeWins` | script.js:50-52 | a stored `light` or `dark` is used whatever the system preference |
| `Theme.Startup` | script.js:49-52 | start-up applies the initial theme and writes nothing to the store |
| `Theme.Toggle` | script.js:56-60 | a click flips the theme, persists the new one under the theme key, and leaves other classes alone |
| `Theme.ToggleSettles` | script.js:56-60 | after a click the body, the icon and the store all agree on the theme |
| `Theme.ToggleTwice` | script.js:56-60 | on a page whose body, icon and store agree, two clicks restore the classes (as a set), the icon and the store |
| `Theme.ToggleTwicePersists` | script.js:49-60 | after start-up, two clicks restore the classes and the icon and leave the start-up theme stored |

## Left out

- DOM lookups, event-listener wiring, `IntersectionObserver` and GSAP animations are user-interface and third-party calls. The model receives the values they would deliver.
- Timers (`setInterval` for the countdown, `setTimeout` for counter ticks and the success line) are left out. A tick or a callback is one function application, and a counter run is the list of values shown.
- `Date` string parsing, `localStorage` and `matchMedia` are browser services. Their results are parameters.
- The countdown's null checks on the card's countdown element are left out. Without the element nothing is shown, and there is no logic to model.
- `Math.max(0, dt - now)` is not modelled separately. It only runs once `dt > now`, so it never changes the difference.
- `StatCounter.Run`: the run is modelled only when the count is at or above the target, or the target is positive. Below a target of zero or less the script re-schedules itself forever without progress; `StatCounter.StepStalls` states that tick.
- Counter values are exact integers. A non-numeric `data-count` (NaN), fractional targets and floating-point rounding of `target / speed` are not modelled. Neither is the number-to-text round trip through `innerText`.
- `form.reset()` is modelled as clearing all three fields to the empty string. This assumes the markup gives the fields no default values.
- The body's class list is modelled as a set. The script only adds, removes and tests classes and never reads their order, so the order `classList.add` produces is not kept. Two clicks therefore restore the class set but not necessarily its order: `theme-dark user-is-tabbing` becomes `user-is-tabbing theme-dark`.
- Lone UTF-16 surrogates cannot occur in the model's strings, so strings are sequences of code points.
- Modals, sponsor drag-scroll, the mobile menu, the Escape handler and the footer year are not modelled. They are attribute flips and scroll offsets, with no decision logic.
