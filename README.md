# uuidRegex and LimitedClock, verified in Dafny

This project models the two pieces of logic in `src/util/misc.ts` of the
animated-java Blockbench plugin:

- `uuidRegex` is the check for the 8-4-4-4-12 hexadecimal UUID text form,
  which is the string form in section 3 of RFC 4122. It is modelled in
  `uuid_format.dfy` (module `UuidFormat`). The pattern is written out as a
  small regular-expression syntax tree: `^`, `[0-9a-fA-F]{n}`, `\b`, a
  literal `-` and `$`. A matcher gives that tree the meaning
  `RegExp.prototype.test` gives the pattern: a match may start at any
  position. A second definition states the layout by position (`IsCanonicalUuid`).
  The two definitions are proved to accept exactly the same strings. That
  proof also shows that the four `\b` assertions never reject anything:
  each one sits after a hex digit, which is a word character, and before a
  `-`, which is not.
- `LimitedClock` is modelled in `limited_clock.dfy` (module `Pacing`). It is
  a class with the mutable fields `limit` and `lastTime`, a constructor and
  `Sync`. `performance.now()` is not read inside the model. Its readings
  are parameters instead: `now` is the time of the call and `resume` is the
  time after the animation frame. `Sync` returns whether it waited. The
  class is specified by pure functions: `Init`, `ShouldWait` and `Step` for
  one call, and `States` and `WaitTimes` for a sequence of calls. The lemmas
  about call sequences are stated on these functions.

`sync` behaves as the code is written (src/util/misc.ts:56): it waits for a
frame when the time since `lastTime` is **at least** `limit`, and returns
at once otherwise. This is the reverse of usual throttling, and the model
keeps it. One consequence is proved anyway for calls made one after another
(each `sync` finished before the next starts): the resume times of two frame
waits are at least `limit` apart (`WaitsAreSpaced`). The reason is
that `lastTime` changes only on a wait.

The constructor takes any `limit`. The code does not check that it is
positive, so the model does not require it either. The lemmas that need a
positive limit, or a clock that does not run backwards, say so in their own
`requires` clauses.

## Model

| member | source | states |
|---|---|---|
| `UuidFormat.BoundaryBetweenHexAndHyphen` | src/util/misc.ts:45 | a `\b` between a hex digit and `-` always holds, so the pattern's `\b` assertions add no constraint |
| `UuidFormat.GroupMatch` | src/util/misc.ts:45 | after a hex digit, a `\b-[0-9a-fA-F]{n}` group matches exactly when a `-` and then n hex digits follow |
| `UuidFormat.MatchAtStartIffCanonical` | src/util/misc.ts:45 | the pattern matches from position 0 if and only if the string has the positional 8-4-4-4-12 layout |
| `UuidFormat.AcceptsIffCanonical` | src/util/misc.ts:44-45 | `uuidRegex.test(s)` holds if and only if `s` has length 36, `-` at 8, 13, 18 and 23, and a hex digit at every other index |
| `UuidFormat.AcceptedShape` | src/util/misc.ts:45 | an accepted string has length 36, hyphens at indices 8, 13, 18 and 23, and `[0-9a-fA-F]` everywhere else |
| `UuidFormat.RejectsSurroundingText` | src/util/misc.ts:45 | the `^` and `$` anchors: an accepted string with any non-empty text before or after it is rejected |
| `UuidFormat.CaseInsensitive` | src/util/misc.ts:45 | two strings that differ only in the case of their letters are both accepted or both rejected |
| `UuidFormat.FlipOneKeepsAcceptance` | src/util/misc.ts:45 | switching one character between upper and lower case does not change acceptance |
| `UuidFormat.Examples` | src/util/misc.ts:44-45 | a mixed-case UUID is accepted; the same UUID inside braces is rejected |
| `Pacing.LimitedClock.constructor` | src/util/misc.ts:49-51 | `limit` is the argument and `lastTime` is the clock reading at construction |
| `Pacing.LimitedClock.Sync` | src/util/misc.ts:53-60 | waits if and only if `now - lastTime >= limit`; on a wait `lastTime` becomes the resume time, which is at least `limit` after the old `lastTime`; otherwise nothing changes; `limit` never changes |
| `Pacing.StepKeepsLimitAndOrder` | src/util/misc.ts:53-60 | one call keeps `limit`; with a monotone clock, the new `lastTime` lies between the old one and the resume time |
| `Pacing.LimitNeverChanges` | src/util/misc.ts:49-60 | after every call of any sequence of calls, `limit` is the constructor's value |
| `Pacing.LastTimeNeverDecreases` | src/util/misc.ts:53-60 | with a clock that never runs backwards, `lastTime` never decreases across a sequence of calls and never drops below its initial value |
| `Pacing.WaitsAreSpaced` | src/util/misc.ts:55-58 | in any sequence of calls made one after another, each frame wait resumes at least `limit` after the previous one, and the first at least `limit` after the initial `lastTime` |
| `Pacing.LastTimeIsLastWait` | src/util/misc.ts:56-58 | after a sequence of calls, `lastTime` is the resume time of the last wait, or the initial value if no call waited |
| `Pacing.QuickCallsNeverWait` | src/util/misc.ts:54-56 | calls made while less than `limit` has passed since `lastTime` never wait and leave the state unchanged |
| `Pacing.RepeatDecidesAlike` | src/util/misc.ts:54-56 | a call that does not wait changes nothing, so repeating it at the same time makes the same decision |
| `Pacing.NoWaitRightAfterWait` | src/util/misc.ts:55-58 | after a wait, a call less than `limit` after the resume time does not wait |
| `Pacing.Scenario` | src/util/misc.ts:47-61 | with limit 250 built at t0, a call at t0+10 does not wait; a call at t0+300 waits and records the resume time |

## Left out

- `objectEqual` (src/util/misc.ts:1-18) is not modelled. It relies on JavaScript's dynamic `typeof`, on loose equality `!=`, on comparing object references and on a foreign `.equals` method, so a model would need a full JavaScript value semantics.
- `roundTo` and `roundToN` (src/util/misc.ts:20-26) are not modelled. They are floating-point `Math.round` arithmetic.
- `pollPromise` (src/util/misc.ts:33-42) is not modelled. It is asynchronous plumbing built on `setInterval`, `clearInterval` and promise resolution.
- `Pacing.LimitedClock.Sync` does not model the real wait. `requestAnimationFrame` and `performance.now()` become the `resume` parameter, and the call's suspension is reported only through `waited`. Interleavings of overlapping `sync` calls on one clock are not modelled either. Under them `WaitsAreSpaced` does not hold: `sync` assigns `lastTime` only after awaiting the frame, so with limit 250 and `lastTime` 0, calls at 300 and at 305 both see `lastTime` 0, both wait, and both resume on the same frame.
- Timestamps and `limit` are `int`. The real values are JavaScript numbers (floating-point milliseconds), and the code only subtracts and compares them, so rounding is not modelled. A fractional `limit` such as 1000/60 and a NaN `limit` are not modelled either; with a NaN `limit`, `diff >= limit` is always false and `sync` never waits.
- The pattern model covers only the constructs `uuidRegex` uses (anchors, `\b`, one literal and fixed-count hex classes). It is not a general regular-expression engine.
- `uuidRegex` does not look at the RFC 4122 version or variant digits, and neither does the model. The nil UUID and any hex digit in those positions are accepted.
- A Dafny `string` is a sequence of Unicode scalar values, while a JavaScript string is a sequence of UTF-16 code units, so strings with lone surrogates cannot be represented. Acceptance is unaffected, because only ASCII characters are ever accepted.
- src/outliner/textDisplay.ts is not part of this model. It registers the Text Display node type with the host editor, builds THREE.js meshes and textures, and wires undo/redo and menus.
