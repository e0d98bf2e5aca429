# Diwali countdown: a Dafny model of its script

`script.js` counts down to 2025-10-20 00:00 local time and shows the days,
hours, minutes and seconds left. When the countdown expires it runs a
celebration of firework bursts and spark columns. A visitor can also share a
link carrying a friend's name (`?to=…&from=…`). Opening that link shows a
typed greeting and a bigger celebration with a looping firecracker sound.

This project models the logic inside that script and proves what it
promises:

- `Countdown`: `pad` and the decomposition in `update`. The fields are in
  range, and together they give the remaining time floored to the second.
  They are the only well-formed fields that do so.
- `Poll`: the load-time `update()` and the 1000 ms interval. The interval
  stops at expiry, so expiry celebrates at most once. It also covers the
  startup defect listed under Findings.
- `Celebration`: the timer lists of `triggerCelebration` and
  `bigCelebration`, and the particle counts and lifetimes. Every particle is
  removed before the final clear.
- `Audio`: the lazily created firecracker sound. At most one element is ever
  created. Starting it while it plays does nothing, and stopping it is
  idempotent.
- `Sanitize`: the shared-link name filter, checked against the script's
  UTF-16 code-unit semantics, and the gate deciding whether a greeting opens.
- `Share`: `trim`, the query parameters of `buildShareUrl` and the share
  button's empty-name guard.
- `Greeting`: the wish templates, the title, the sender's signature, the
  `typeText` loop and `openGreeting`.
- `Utf16` and `Wrappers` are helpers. `Utf16` handles JavaScript's
  code-unit strings and `Wrappers` holds `Option`.

Clock readings are integer milliseconds, and each `Math.random()` draw is a
`real` parameter in [0, 1). The clipboard outcome, the browser's autoplay
decision and the form-urlencoding of one key or value are also parameters.

In three places the script does something other than what one might
expect, and the model follows the script:

- Days are padded to two digits like the other fields (script.js:56).
- `buildShareUrl` does not trim the name itself. It relies on the click
  handler having done so (script.js:151, 170).
- Expiry does not always celebrate exactly once. A page loaded after the
  target never celebrates (see Findings).

## Model

| member | source | states |
|---|---|---|
| Countdown.Clamped | script.js:46 | `Math.max(0, target - now)` is zero exactly when the target has been reached, equals `target - now` before it, and is never below `target - now` |
| Countdown.Decompose | script.js:46-54 | hours < 24, minutes < 60 and seconds < 60. The fields make up the clamped difference floored to the whole second (S ≤ D < S + 1000). All fields are zero once `target - now <= 0` |
| Countdown.ShowsUnique | script.js:48-54 | two well-formed field sets that both show the same duration are equal, so the greedy split is the only correct one |
| Countdown.TwoSecondsLeft | script.js:48-54 | two seconds before the target the display is 0 days, 0 h, 0 min, 2 s |
| Countdown.Digits | script.js:42 | `String(n)` is at least one decimal digit, has no leading zero, and is one digit exactly when n < 10 |
| Countdown.Pad | script.js:42 | `pad(n)` is at least two decimal digits and denotes n |
| Countdown.PadStart | script.js:42 | `padStart` fills on the left up to the width and keeps the original string as the suffix |
| Countdown.PadProperties | script.js:42 | `pad(n)` is at least two digits, has a '0' prepended exactly when n < 10, and still denotes n |
| Countdown.Render | script.js:56-59 | each of the four texts is at least two digits and denotes its field (days included); for in-range fields, hours, minutes and seconds are exactly two digits |
| Poll.ClearInterval | script.js:62 | `clearInterval(timer)` throws exactly when `const timer` has not been initialised yet; otherwise the interval ends up cleared |
| Poll.UpdateStep | script.js:61-64 | `update()` throws exactly when the target has been reached while `timer` is uninitialised. Otherwise it celebrates exactly when the target has been reached, which leaves the interval cleared; before the target the binding is untouched |
| Poll.LoadAsWritten | script.js:134-135 | the startup as written (`update()`, then `setInterval`) never leaves a cleared interval, and the rest of the script runs exactly when the interval got registered |
| Poll.LoadCorrected | script.js:134-135 | with the two lines swapped, the rest of the script always runs and the interval stays registered exactly when no celebration was scheduled |
| Poll.ExpiredLoadNeverCelebrates | script.js:134-135 | a page loaded at or after the target throws in its first `update()`: no interval, no celebration timers, no later code |
| Poll.PendingLoadAsIntended | script.js:134-135 | before the target the startup as written and the corrected one agree: interval registered, nothing scheduled, rest of the script runs |
| Poll.CorrectedLoadCelebratesOnce | script.js:61-63 | with the corrected startup, an expired load schedules the normal celebration once and leaves the interval cleared |
| Poll.Engine.constructor | script.js:134-135 | the corrected startup: interval registered, then one `update()`. The fields show the remaining time, and the binding and appended timers are those of `LoadCorrected`. It celebrates exactly when the target has been reached, and then the container is shown; otherwise its visibility is untouched |
| Poll.Engine.Fire | script.js:44-65 | a registered interval's tick shows the remaining time (all zero at expiry) and ends as `UpdateStep` says. It stops polling exactly when `target - now <= 0`, then schedules the normal celebration and shows the container; otherwise visibility is untouched. A cleared interval changes nothing |
| Poll.Engine.RunTicks | script.js:61-63 | over any sequence of ticks the celebration fires at most once. It fires exactly when some tick saw expiry, its timers are appended once and the container is then shown; if it does not fire, visibility is untouched |
| Celebration.BurstCount | script.js:88 | a burst has between 24 and 47 particles |
| Celebration.BurstCountOnto | script.js:88 | every count from 24 to 47 can be drawn |
| Celebration.SparkCount | script.js:122 | a spark column has between 6 and 11 sparks |
| Celebration.SparkCountOnto | script.js:122 | every count from 6 to 11 can be drawn |
| Celebration.Lifetime | script.js:115 | particle lifetimes, computed over exact reals, are in [1100, 1500) for bursts, [1200, 1800) for sparks and [1600, 2400) for confetti |
| Celebration.CreateFireworkBurst | script.js:84-117 | one removal timer per particle, 24 to 47 of them, each with the lifetime of its draw |
| Celebration.CreateSparkColumn | script.js:119-132 | one removal timer per spark, 6 to 11 of them, each with the lifetime of its draw |
| Celebration.Spaced | script.js:70-75 | a `for` loop of n iterations schedules n timers of one effect, the i-th after i·step ms |
| Celebration.NormalSchedule | script.js:70-81 | 15 timers: bursts at 0, 500, …, 2500 ms, spark columns at 0, 300, …, 2100 ms, then the clear at 8000 ms |
| Celebration.BigSchedule | script.js:251-268 | 53 timers: bursts at 0, 200, …, 2200 ms, confetti at 0, 60, …, 2340 ms, then the clear-and-stop at 9000 ms |
| Celebration.CountAppend | script.js:70-81 | counting the timers of one effect distributes over concatenating schedules |
| Celebration.CountSpaced | script.js:70-75 | a loop of n timers of one effect contributes n timers of that effect and none of any other |
| Celebration.TwoRunsThenClearsLast | script.js:70-81 | two runs of spawns followed by a clear keep the clear last. Every spawn delay plus its longest particle lifetime comes before it, provided each run's last spawn does |
| Celebration.NormalScheduleShape | script.js:70-81 | the normal celebration has 6 bursts, 8 spark columns, no confetti and one clear (at 8000 ms, last), and every particle's removal comes before the clear |
| Celebration.BigScheduleShape | script.js:251-268 | the big celebration has 12 bursts, 40 confetti, no spark columns and one clear-and-stop (at 9000 ms, last), and every particle's removal comes before the clear |
| Celebration.ParticleGoneBeforeClear | script.js:78-81 | whatever its random lifetime, a particle from a spawn timer of such a schedule is removed before the final clear |
| Celebration.TriggerCelebration | script.js:67-82 | the container is shown and exactly the normal schedule is appended to the timer log |
| Celebration.BigCelebration | script.js:248-269 | the sound is started, exactly the big schedule is appended, and the container's visibility is left as it was |
| Celebration.RunClear | script.js:78-81 | the clear hides the container and, after a big celebration (script.js:268), stops the sound |
| Audio.Ensured | script.js:24-40 | an existing element is reused; otherwise a new paused element at position 0 is created, unless creation throws, which leaves none |
| Audio.Played | script.js:271-282 | a playing element is left alone. A paused one starts only when playback is allowed. The position is untouched |
| Audio.Stopped | script.js:284-291 | without an element nothing happens; otherwise it ends paused at position 0 |
| Audio.StopIdempotent | script.js:284-291 | stopping twice ends in the same state as stopping once |
| Audio.StartWhilePlaying | script.js:274 | starting the sound while it plays changes nothing |
| Audio.FireAudio.constructor | script.js:22 | no element exists at load |
| Audio.FireAudio.Ensure | script.js:24-40 | `ensureFireAudio` returns the handle `Ensured` gives. It creates an element only when there was none, so at most one element ever exists |
| Audio.FireAudio.Start | script.js:271-282 | `startFireAudio` leaves the handle as `Played(Ensured(...))` describes and keeps the at-most-one-element invariant |
| Audio.FireAudio.Stop | script.js:284-291 | `stopFireAudio` leaves the handle as `Stopped` describes and creates nothing |
| Sanitize.Filter | script.js:232 | the regular-expression replacement never lengthens the string and leaves only allowed characters |
| Sanitize.FilterAppend | script.js:232 | the filter works character by character: filtering a concatenation concatenates the filtered parts |
| Sanitize.FilterKeepsAllowed | script.js:232 | a string of allowed characters passes unchanged |
| Sanitize.FilterCounts | script.js:232 | each allowed character occurs in the output as often as in the input, and disallowed ones never do |
| Sanitize.Sanitize | script.js:232 | the sanitised name is at most 32 characters, all allowed, and is the first min(32, n) characters of the filtered input |
| Sanitize.SanitizeIdempotent | script.js:232 | sanitising twice equals sanitising once |
| Sanitize.FilterUnits | script.js:232 | the replacement over UTF-16 code units never lengthens the string, keeps every allowed code unit and leaves only allowed ones |
| Sanitize.FilterUnitsEncode | script.js:232 | filtering UTF-16 code units (the pattern has no `u` flag) gives the encoding of the character-level filter |
| Sanitize.SanitizeOnCodeUnits | script.js:232 | `.slice(0, 32)` over code units gives the encoding of the character-level result, which has one code unit per character |
| Sanitize.SanitizeDropsTail | script.js:232 | a name of at most 32 allowed characters followed by disallowed ones sanitises to exactly that name |
| Sanitize.SanitizeExample | script.js:232 | "Jöhn_Doe-2!!" becomes "Jöhn_Doe-2" |
| Sanitize.CheckSharedLink | script.js:228-235 | a greeting request exists exactly when `to` is present and sanitises to a non-empty name. Both names are sanitised and valid, and a missing or empty `from` gives an empty sender |
| Sanitize.CheckSharedLinkExample | script.js:228-235 | `?to=Asha&from=Ravi` asks for a greeting to "Asha" from "Ravi" |
| Share.Trim | script.js:170 | `trim()` never lengthens the string, the result neither starts nor ends with white space, and it is empty exactly when the input is all white space |
| Share.TrimStartSpec | script.js:170 | the start trim drops exactly the leading JavaScript white space |
| Share.TrimEndSpec | script.js:170 | the end trim drops exactly the trailing JavaScript white space |
| Share.TrimSpec | script.js:170 | `trim()` returns a slice of the input with only white space cut from either side, and the slice neither starts nor ends with white space |
| Share.TrimIdempotent | script.js:170 | trimming twice equals trimming once |
| Share.FieldValue | script.js:170-171 | a missing input reads as the empty string, a present one as its trimmed value |
| Share.Serialize | script.js:154 | `toString()` of the parameters is empty exactly when there are none |
| Share.SerializeSeparators | script.js:154 | with an encoder that never emits '=' or '&', the query holds one '=' per parameter and one '&' between consecutive ones |
| Share.ShareParams | script.js:150-153 | `to` is present exactly when the name is non-empty and comes first. `from` is present exactly when the sender is non-empty and comes last. There are no other keys |
| Share.QueryShape | script.js:150-154 | the serialised query for each of the four cases: `to=…`, `to=…&from=…`, `from=…`, empty |
| Share.BuildShareUrl | script.js:148-155 | the URL is the base, '?', then `to` exactly when the name is non-empty and `from` exactly when the trimmed sender is non-empty, in that order |
| Share.ShareUrlExample | script.js:148-155 | sharing to "Asha" with no sender gives `base?to=Asha` with no `from` |
| Share.ShareClick | script.js:169-179 | an empty trimmed name only shows the "Please enter a friend's name" toast and copies nothing. Otherwise the URL for that name, which contains `to`, is copied and the toast reports the outcome |
| Greeting.Wish | script.js:185-195 | every wish contains the recipient's name |
| Greeting.WishIndex | script.js:196 | the random choice is a valid index into the nine wishes |
| Greeting.WishIndexOnto | script.js:196 | every wish can be chosen |
| Greeting.Title | script.js:197 | the title contains the recipient's name |
| Greeting.Signed | script.js:201 | without a sender the text is the wish. With one it starts with the wish, contains the sender's name and ends with " 💌" |
| Greeting.GreetingFor | script.js:183-201 | no overlay, no greeting. Otherwise the title is "Happy Diwali, name!" and the text is one of the nine wishes, signed when there is a sender. Both contain the name |
| Greeting.TypeText | script.js:211-222 | after the loop the element holds the whole text and is no longer typing. After i+1 iterations it held the first i+1 UTF-16 code units. A missing element changes nothing |
| Greeting.OpenGreeting | script.js:183-208 | shows `GreetingFor`'s greeting, types its whole text (the element ends not typing) and runs the big celebration (schedule and sound). The celebration container's visibility is untouched. It does nothing without the overlay |
| Greeting.FollowSharedLink | script.js:228-246 | a link whose sanitised recipient is empty opens nothing, and neither does a valid link when the overlay is missing: stage, sound and text element are untouched. Otherwise the greeting for the sanitised names opens: its text is typed, the sound is started and the big schedule appended, and the container's visibility is untouched |

## Left out

- DOM and styling: element lookups, classes, `aria-hidden` of the toast and
  the overlay, the close button's handler, `requestAnimationFrame`
  transitions and the share card's 7000 ms highlight. These are
  presentational.
- Particle geometry and colours are floating-point screen values with no
  bearing on counts or timing. This covers positions, angles, distances,
  sizes, translation vectors and colour choices.
- Real timers and asynchrony: the celebration timers of
  `triggerCelebration` and `bigCelebration` are entries of a timer list,
  and interval ticks are method calls with the clock reading. The order in
  which the host fires timers is not modelled. Two kinds of timer are not
  entries of that list: each particle's removal timer (script.js:115, 130,
  265) is its drawn lifetime, returned or bounded by `Lifetime`, and the
  300 ms delay before a shared link's greeting opens (script.js:236-243) is
  not modelled, since `FollowSharedLink` opens it at once. The 1000 ms
  interval period is not modelled either; ticks carry their own clock
  readings.
- Greeting.TypeText: the 36 ms per-character delay and its jitter are not
  modelled. Only the text after each iteration is.
- Greeting.OpenGreeting: the typing runs to completion before the big
  celebration is scheduled. In the script the two interleave, but they touch
  disjoint state. A missing `greetTitle` element (which would throw) is not
  modelled.
- The clipboard (`copyToClipboard` and its `execCommand` fallback) is the
  parameter `copied`. The toast's 2200 ms auto-hide is left out as well.
- Percent-encoding: `URLSearchParams` serialisation of one key or value is
  the parameter `enc`, and names arrive at the sanitiser already decoded.
  The script decodes twice: `params.get` already decodes, then
  `decodeURIComponent` runs again. A name containing '%' not followed by two
  hex digits (for example "100%") therefore throws a URIError, and no
  greeting opens. This second decoding is not modelled.
- `history.replaceState`, parsing the target date and the local time zone
  are left out. The target and the clock are integer milliseconds.
- Audio: the media element's real playback (time advancing, the play
  promise settling later) is left out, as is an exception from `pause()`.
  `SOUND_ENABLED` is the constant true, so its disabled branch is not
  modelled. Creating the element is all-or-nothing: an exception after
  `createElement` but before `appendChild` is not told apart.
- Celebration.Lifetime: removal delays are computed over exact reals.
  JavaScript computes them in IEEE-754 doubles, where the largest
  `Math.random()` value rounds `1100 + u * 400` up to exactly 1500 (likewise
  1800 and 2400). That rounding, which makes the upper bounds reachable, is
  not modelled; the final clears at 8000 and 9000 ms come after every
  lifetime either way.
- Celebration.RunClear: emptying the container (`innerHTML = ''`) is not
  modelled, since the stage holds no particles; only hiding it is.
- Poll.Engine.Fire: clock readings are not required to increase between ticks.

## Findings

| source | as written | input that shows it | evidently intended | confidence | as-written member | corrected member |
|---|---|---|---|---|---|---|
| script.js:134-135 | `update()` runs before `const timer` is initialised. At or after the target, `clearInterval(timer)` (line 62) reads `timer` in its temporal dead zone and throws a ReferenceError. The script stops: no interval, no celebration, and the share button and shared-link greeting are never wired up | page loaded with `now >= target`, e.g. any load after 2025-10-20 00:00 local time | register the interval first, so an expired load celebrates once, leaves the interval cleared and lets the rest of the script run | high (not executed) | Poll.LoadAsWritten, Poll.ExpiredLoadNeverCelebrates | Poll.LoadCorrected, Poll.CorrectedLoadCelebratesOnce, Poll.Engine.constructor |
