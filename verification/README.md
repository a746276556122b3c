# HeatmapTracker core in Dafny

A model of the computational core of `HeatmapTracker`, a browser overlay
that records pointer movements into a density field and colours that field
through a gradient lookup table. The model covers these parts:

- **`Js`** (`js.dfy`): the JavaScript number behaviour the core depends on.
  This is `x | 0` (truncate toward zero, then ToInt32), the
  `Uint8ClampedArray` store (clamp to [0,255]), NaN, and
  `String.prototype.slice`.
- **`ColorParse`** (`color_parse.dfy`): `_parseColor`. It reads `#rgb` and
  `#rrggbb` through `parseInt(…, 16)` and `rgb(…)` through the global match
  of `\d+\.?\d*`. Anything else is black. An `rgb` string without a digit
  throws, which the model writes as `None`.
- **`Gradient`** (`gradient.dfy`): `_buildGradientLUT` with `_lerp`. It
  covers the stable sort by position, the clamping of positions into [0,1],
  the decoding of colours, the segment scan for each of the 256 levels, the
  local fraction and the 1024-byte RGBA table.
- **`Colorize`** (`colorize.dfy`): the per-pixel loop of `_colorizeAll`. It
  is given twice: as a recursive function over the flat RGBA field, and as
  the array loop of the source, proved equal to it.
- **`Tracker`** (`tracker.dfy`): the session record. It holds the
  `enabled`/`visible` flags, the throttle (`_rafScheduled`, `_lastRedraw`),
  the accumulated field, the visible image and the table. There is one pure
  transition per public call (`init`, `start`, `stop`, `show`, `hide`,
  `toggle`, `clear`) and per host event: pointer movement, resize, and the
  animation frame that `_scheduleColorize` requests. An event list is folded
  by `Run`.

The clock (`performance.now()`) is a parameter of every transition that
reads it. The animation frame is an event of its own. Two host canvas
operations arrive as the field they leave behind: the radial-gradient
deposit of one movement, and the re-fit of the canvases on a resize.

The local fraction of the gradient builder comes in two versions, chosen
by a `FractionRule` parameter. `AsWritten` follows the code as it stands,
and `Intended` is the evident intent. `Tracker.Init`, `Tracker.Step` and
`Tracker.Run` take the rule as a parameter. The program as written is the
`AsWritten` instance. `Gradient.GradientLut` is the corrected table, built
with `Intended`. The "Findings" section below explains the difference.

Handlers are modelled by two flags. `bound` records that `init` has bound
`_onMouseMove` and `_onResizeMaybe` to the session. `listening` records
that the bound handlers are registered. A `start` before `init` registers
the unbound methods. Those run with the wrong `this`, so they return at
once. The `start` inside `init` then returns early, because tracking is
already enabled. Movements reach the field only after a later `stop` and
`start` (`Tracker.StartBeforeInitIgnoresMovements`).

Two consequences of the code, each with a lemma:

- `show` does not look at `enabled`. So `init`, `stop`, `show` reaches a
  session with tracking off and the overlay shown
  (`Tracker.DisabledVisibleReachable`).
- The deferred frame redraws without checking the interval. So two
  colorize passes can fall within one interval
  (`Tracker.DeferredRedrawIgnoresInterval`, `Tracker.FrameRedrawsAtAnyTime`).

## Model

| member | source | states |
|---|---|---|
| Js.Trunc | mapadecalor.js:295 | the truncation in the integer coercion of `_lerp` rounds toward zero: the result is within 1 of `x`, on the side of 0 |
| Js.ToInt32 | mapadecalor.js:290 | the 32-bit coercion lands in the signed 32-bit range, is congruent to its input modulo 2^32, and leaves 32-bit values unchanged |
| Js.ClampByte | mapadecalor.js:272-275 | a store into the table keeps bytes, gives 0 below the range and 255 above it |
| Js.Slice | mapadecalor.js:284-286 | `slice` with indices past the end yields the characters that exist, and its length is the clipped span |
| ColorParse.ParseIntHex | mapadecalor.js:284-286 | `parseInt(…, 16)` of an empty string is NaN, and any number it reads is smaller in magnitude than 16 to the power of the input length |
| ColorParse.ParseIntHexDigits | mapadecalor.js:284-286 | a string made only of hex digits is read as the number it spells |
| ColorParse.Matches | mapadecalor.js:289 | the global match finds no number exactly when the string has no digit, which is when `match` returns null |
| ColorParse.Component | mapadecalor.js:290 | the integer coercion of match k is its integer part when it fits 32 bits, and 0 for a missing component |
| ColorParse.ParseColor | mapadecalor.js:279-294 | the decoder throws exactly on an `rgb…` string without digits; anything neither `#…` nor `rgb…` is black; channels are NaN or 32-bit integers, and never NaN for `rgb…` |
| ColorParse.HexRoundTrip | mapadecalor.js:280-287 | every `#rrggbb` string the lower-case encoder writes decodes back to the three bytes it was written from |
| ColorParse.HexLongForm | mapadecalor.js:280-287 | any `#` followed by three pairs of hex digits, upper or lower case, decodes to the values of the three pairs |
| ColorParse.ShortHexDoubles | mapadecalor.js:281-282 | the short form `#rgb` decodes exactly like `#rrggbb` with each digit doubled |
| ColorParse.ShortHexValues | mapadecalor.js:281-287 | each short-form hex digit d gives channel 17·d |
| ColorParse.RgbRoundTrip | mapadecalor.js:288-290 | every `rgb(r,g,b)` string with byte components decodes back to those bytes |
| Gradient.Insert | mapadecalor.js:263 | one insertion step of the sort adds exactly one stop and keeps all others (multiset) |
| Gradient.InsertSorted | mapadecalor.js:263 | inserting into a list sorted by position keeps it sorted |
| Gradient.SortByPos | mapadecalor.js:263 | the sort by position returns a permutation of its input that is ordered by position |
| Gradient.SortIsStable | mapadecalor.js:263 | stops at equal positions keep their relative input order, as the stable `Array.prototype.sort` keeps them |
| Gradient.SortSortedIsIdentity | mapadecalor.js:263 | sorting a list that is already in order returns it unchanged |
| Gradient.Clamp01 | mapadecalor.js:263 | `min(1, max(0, t))` lies in [0,1] and leaves positions already in [0,1] alone |
| Gradient.MapAll | mapadecalor.js:263 | mapping a decoder that may throw succeeds exactly when every element decodes, and keeps the length |
| Gradient.MapAllContents | mapadecalor.js:263 | after a successful map, entry k is the decoding of element k |
| Gradient.NormalizeAll | mapadecalor.js:263 | the map over the sorted stops succeeds exactly when every colour decodes, and keeps the length |
| Gradient.NormalizeAllContents | mapadecalor.js:263 | entry k of the mapped list is stop k with its position clamped and its colour decoded |
| Gradient.Normalize | mapadecalor.js:263 | the normalised list exists exactly when every colour decodes; it is then sorted, has positions in [0,1] and 32-bit or NaN channels |
| Gradient.NormalizeContents | mapadecalor.js:263 | entry k of the normalised list is entry k of the sorted input, clamped and decoded |
| Gradient.Scan | mapadecalor.js:268 | the `while` loop stops at the first stop whose right neighbour is at or past `t`, or at the last stop, skipping only stops left of `t` |
| Gradient.Segment | mapadecalor.js:267-268 | the scan from 0 returns the segment whose right end is the first stop at or past `t` |
| Gradient.Lerp | mapadecalor.js:295 | `_lerp` always yields a 32-bit integer, and it is 0 when either end is NaN |
| Gradient.LerpEnds | mapadecalor.js:295 | with 32-bit ends, fraction 0 gives the first end and fraction 1 the second |
| Gradient.Fraction | mapadecalor.js:271 | as written the fraction is always 0; it is 0 on a segment at most 1e-6 wide; as intended on a wider segment it is the position of `t` between the two stops |
| Gradient.Channel | mapadecalor.js:272-274 | a stored channel is 0 when either stop's channel is NaN, and equal stop channels store that channel clamped to a byte |
| Gradient.LevelColor | mapadecalor.js:265-274 | a level whose segment has equal colours at both ends gets that colour, clamped, under either rule |
| Gradient.GradientLut | mapadecalor.js:258-277 | the corrected table exists exactly when the builder as written succeeds, since the fraction rule never decides whether the builder throws, and then has 1024 bytes |
| Gradient.TablePrefix | mapadecalor.js:264-276 | after n iterations of the loop, entries 0..n-1 hold their level's colour and alpha 255 |
| Gradient.BuildTable | mapadecalor.js:264-276 | the table has 1024 bytes; entry i holds the colour of level i/255 and alpha 255 |
| Gradient.BuildGradientLut | mapadecalor.js:258-277 | the builder throws exactly when there is no stop or a colour throws; otherwise it returns 1024 bytes, every alpha 255 |
| Gradient.TableColor | mapadecalor.js:264-276 | entry i of the built table is the colour of level i over the normalised stops |
| Gradient.SegmentBrackets | mapadecalor.js:267-270 | once `t` is at or past the first stop, the scanned segment's left end is at or before `t` and its right end at or past it |
| Gradient.FractionInUnit | mapadecalor.js:271 | under either rule, the fraction of a `t` inside its segment lies in [0,1] |
| Gradient.LerpBetween | mapadecalor.js:295 | interpolating two 32-bit channels with a fraction in [0,1] lands between them |
| Gradient.ChannelIsBetween | mapadecalor.js:272-274 | a stored channel lies between the two stops' stored channels, or is 0 when either is NaN |
| Gradient.LevelBetweenStops | mapadecalor.js:264-275 | under either rule, every level at or past the first stop has each channel between those of the two stops of its segment |
| Gradient.NarrowSegmentTakesLeft | mapadecalor.js:271-274 | a segment at most 1e-6 wide gives fraction 0 and so its left stop's colour |
| Gradient.PastLastStop | mapadecalor.js:268-274 | past the last stop, or with a single stop, every level is the last stop's colour |
| Gradient.FirstLevelIsFirstStop | mapadecalor.js:265-274 | with the first stop at 0, entry 0 is the first stop's colour under either fraction |
| Gradient.LastLevelIsLastStop | mapadecalor.js:265-274 | with the last stop at 1 and its neighbour more than 1e-6 away, entry 255 is the last stop's colour under the intended fraction |
| Gradient.AsWrittenNeverInterpolates | mapadecalor.js:271-274 | as written, every entry is the colour of its segment's left stop: nothing is interpolated |
| Gradient.LastStopNeverLeft | mapadecalor.js:267-268 | with the last stop at 1, no level scans to the last stop |
| Gradient.AsWrittenOmitsLastStop | mapadecalor.js:268-274 | as written, with the last stop at 1, every entry is the colour of a stop other than the last |
| Gradient.NormalizeHexStops | mapadecalor.js:263 | sorted `#rrggbb` stops in [0,1] normalise to their own positions and the bytes they spell |
| Gradient.RampNormalized | mapadecalor.js:263 | a ramp from 0 to 1 of `#rrggbb` stops normalises to a ramp with the same ends and colours |
| Gradient.LevelRampEnds | mapadecalor.js:264-275 | on a normalised ramp, level 0 is the first colour under both fractions; level 255 is the last colour as intended and the second-to-last as written |
| Gradient.RampLevels | mapadecalor.js:263-275 | the same level colours, reached from the configured stops |
| Gradient.RampEnds | mapadecalor.js:258-277 | on a ramp, both tables start at the first colour; the intended one ends at the last colour, the one as written at the colour before it |
| Gradient.TwoStopEnds | mapadecalor.js:258-277 | for any colours a at 0 and b at 1, the intended table runs from a to b; the one as written ends at a |
| Gradient.BlackToWhite | mapadecalor.js:271 | as written, entry 255 of a black-to-white gradient is black; as intended it is white |
| Gradient.DefaultHex | mapadecalor.js:10-16 | the default stops are the `#rrggbb` strings of blue, cyan, green, yellow and red |
| Gradient.DefaultIsRamp | mapadecalor.js:10-16 | the default gradient is a sorted ramp from 0 to 1 |
| Gradient.DefaultGradientEnds | mapadecalor.js:271 | the default table runs from blue to red as intended; as written it runs from blue to yellow |
| Colorize.PixelOut | mapadecalor.js:313-327 | the rule for one pixel writes exactly four bytes |
| Colorize.Colorize | mapadecalor.js:311-328 | the pass keeps the image size, and each output byte follows the per-pixel rule applied to that byte's pixel |
| Colorize.ColorizePixel | mapadecalor.js:312-327 | the loop body for one pixel writes the rule's four bytes; its alpha is 0 exactly when both alpha and red are 0 |
| Colorize.ColorizeLoop | mapadecalor.js:311-328 | the loop over a fresh output array produces exactly the pass |
| Colorize.OutputByte | mapadecalor.js:311-328 | byte c of output pixel p is byte c of the rule applied to pixel p of the field |
| Colorize.PixelRule | mapadecalor.js:313-327 | a pixel is transparent exactly when alpha and red are 0; otherwise its alpha is min(255, 40+v), at least 41, and its colour is table entry v |
| Colorize.TransparentExactlyWhereEmpty | mapadecalor.js:315-327 | an output pixel is transparent exactly where the field has neither alpha nor red |
| Colorize.EmptyFieldIsTransparent | mapadecalor.js:316-327 | an all-zero field colours to an all-zero image |
| Colorize.AlphaGrowsWithDensity | mapadecalor.js:322 | a denser pixel is never more transparent |
| Colorize.OnlyOwnEntryMatters | mapadecalor.js:317-320 | a pixel's output depends on the table only through the entry of its own density |
| Tracker.Blank | mapadecalor.js:102-109 | a cleared image has the same size and every byte 0 |
| Tracker.ColorizeAll | mapadecalor.js:298-300 | the pass does nothing while hidden or without a visible canvas; otherwise it records the time and shows the colorized field, touching neither the flags (including `bound` and `listening`) nor the field |
| Tracker.Schedule | mapadecalor.js:244-256 | a request while a frame is pending is absorbed; one inside the interval only marks a frame pending; any other redraws at once and leaves none pending |
| Tracker.FrameFired | mapadecalor.js:249-252 | the frame clears the pending mark, then redraws the current field if the overlay is still shown, with no interval check; nothing else changes |
| Tracker.Start | mapadecalor.js:64-70 | `start` enables tracking and is a no-op when already enabled; from disabled it registers the handlers, which reach the session only if `init` bound them; it changes nothing else |
| Tracker.Hide | mapadecalor.js:89-96 | `hide` leaves the overlay hidden; a shown overlay loses its canvas and nothing else changes |
| Tracker.Stop | mapadecalor.js:72-78 | `stop` on an enabled session leaves it disabled, hidden, without a visible canvas and with no handler registered; the field, the throttle state, the table and the binding are kept; it is a no-op otherwise |
| Tracker.Show | mapadecalor.js:80-87 | `show` leaves the overlay shown whatever `enabled` is; from hidden it draws the current field at once |
| Tracker.Toggle | mapadecalor.js:98-100 | `toggle` flips visibility and never touches `enabled` |
| Tracker.Clear | mapadecalor.js:102-109 | `clear` zeroes the field and, while shown, the visible image; everything else is kept |
| Tracker.MouseMove | mapadecalor.js:217-234 | a movement is ignored while disabled or without the bound handler registered; otherwise it deposits, and requests a redraw only while shown |
| Tracker.Resize | mapadecalor.js:236-242 | a resize is ignored while disabled or without the bound handler registered; otherwise it re-fits and redraws at once, bypassing the throttle |
| Tracker.Initial | mapadecalor.js:18-28 | before `init` the session is disabled, hidden, unbound, has no canvas and no pending frame, and its field is all zero |
| Tracker.Init | mapadecalor.js:42-62 | `init` fails exactly when the gradient builder with the given rule throws; otherwise tracking is enabled and bound, with that builder's table and the interval; the bound handlers are registered unless an earlier `start` left the session enabled with other handlers; nothing else changes: field, view, visibility and throttle state are kept |
| Tracker.DefaultInitAsWritten | mapadecalor.js:42-62 | `init` as written with the default gradient stores a table whose entry 0 is blue and whose entry 255 is yellow, not red |
| Tracker.Step | mapadecalor.js:42-109 | every call and event keeps the session consistent (canvas present exactly while shown, a full table once bound, handlers registered only when bound and enabled, an empty field before `init`); a frame with none pending and a host event without registered handlers change nothing; only `init`, `start` and `stop` change `enabled` |
| Tracker.Run | mapadecalor.js:42-256 | any sequence of calls and events keeps the session consistent |
| Tracker.InitialConsistent | mapadecalor.js:18-28 | the session before `init` is consistent |
| Tracker.ToggleTwice | mapadecalor.js:98-100 | two toggles restore visibility, `enabled`, the field and the pending mark |
| Tracker.ShowThenHide | mapadecalor.js:80-96 | `show` then `hide` on a hidden session changes only the redraw time and count |
| Tracker.ShowDrawsField | mapadecalor.js:80-87 | right after `show` the overlay holds the colorized field |
| Tracker.ShowBeforeInitIsTransparent | mapadecalor.js:80-87 | `show` before `init` gives a fully transparent overlay, since the field is still empty |
| Tracker.StartBeforeInitIgnoresMovements | mapadecalor.js:42-68 | after `start` then `init`, tracking is on and bound, yet no handler that reaches the session is registered, so a movement changes nothing |
| Tracker.InitThenMoveDeposits | mapadecalor.js:42-68 | `init` on a disabled session registers the bound handlers, so the next movement deposits, whether the overlay is shown or hidden |
| Tracker.DisabledVisibleReachable | mapadecalor.js:42-87 | `init`, `stop`, `show` from the initial session reaches a consistent session that is disabled and shown |
| Tracker.DisabledIgnoresHostEvents | mapadecalor.js:217-242 | while disabled, movements and resizes change nothing |
| Tracker.NoRequestDropped | mapadecalor.js:244-256 | after a movement over a shown overlay, either a frame is pending or the view already holds the new field |
| Tracker.FrameShowsLatestField | mapadecalor.js:249-252 | a pending frame, once fired, shows the field as it is at that moment |
| Tracker.ImmediateRedrawOnlyAfterInterval | mapadecalor.js:246-255 | a request redraws at once only when no frame is pending and the interval has elapsed |
| Tracker.PendingAbsorbsMovements | mapadecalor.js:246 | movements while a frame is pending do not redraw |
| Tracker.FrameRedrawsAtAnyTime | mapadecalor.js:249-252 | a pending frame on a shown overlay redraws whenever it fires, without an interval check |
| Tracker.DeferredRedrawIgnoresInterval | mapadecalor.js:247-252 | with the 80 ms default, passes at 0 ms and at 16 ms both happen, two passes within one interval |
| Tracker.ClearThenColorizeIsTransparent | mapadecalor.js:102-109 | after `clear`, the next pass shows a fully transparent overlay |

## Left out

- Styles, the floating button, `_posClass` and `_updateButtonText`: presentation only, with no effect on the field, the table or the flags.
- `_docSize` and `_ensureCanvases`: the canvas sizes and the copy of old pixels on a resize are host canvas operations. A resize arrives as the re-fitted field. The re-fit that `start` and `show` perform is taken to leave the field unchanged.
- Tracker.MouseMove: the radial-gradient deposit (`createRadialGradient`, `arc`, `fill`) is a host canvas operation. It arrives as the field it leaves behind, so the model states nothing about how much density a movement adds.
- `requestAnimationFrame`, `performance.now()` and the event listeners: the clock is a parameter and the frame is an event. Registering and removing listeners is modelled by the `bound` and `listening` flags together with the `enabled` guard of the handlers.
- `Object.assign` of options in `init`: the only options that reach the core are the gradient and the interval, which are parameters of `Tracker.Init`.
- A second `init`: it binds new handler functions while the old ones stay registered, so a later `stop` leaves the old ones in place and a `start` adds the new ones. The model keeps one `listening` flag, so it does not count duplicate listeners.
- Tracker.Clear: before any canvas exists the source's `clear` does nothing, while the model zeroes the field. The field is all zero before `init` anyway.
- Gradient.Lerp: works on exact reals, not IEEE doubles. The result can differ from the source's by one unit where rounding of `(b - a) * t` crosses an integer.
- ColorParse.Component: exact integer parts stand in for `Number(m) | 0` of a match, because the model has no doubles. They differ from the source in two cases. A component beyond 2^53 rounds as a double before `| 0`. A long fractional part rounds up: `rgb(254.99999999999999,0,0)` has red 255 in the source and 254 in the model.
- ColorParse.ParseColor: strings are sequences of characters, not UTF-16 code units. A non-string colour, on which `startsWith` throws, has no counterpart.
- Gradient.FirstLevelIsFirstStop: assumes the first segment's right stop has no NaN channel. With one, the first stop's channels are not kept: a NaN channel on either side stores 0 (`Gradient.Channel`).
- Gradient.LastLevelIsLastStop: assumes the second-to-last stop has no NaN channel, for the same reason.
- Gradient.AsWrittenNeverInterpolates: assumes the right stop of the level's segment has no NaN channel, for the same reason.
- Gradient.AsWrittenOmitsLastStop: assumes the right stop of the level's segment has no NaN channel, for the same reason.
- Gradient.NarrowSegmentTakesLeft: assumes the right stop has no NaN channel. With one, `(b - a) * 0` is NaN and the channel is 0; `Gradient.Lerp` models that case, but this lemma does not state it.
- The `force` argument of `_colorizeAll`: the source never reads it, so it is not modelled.

## Findings

| source | as written | input that shows it | evidently intended | confidence | as-written member | corrected member |
|---|---|---|---|---|---|---|
| mapadecalor.js:271 | `t1` and `t2` are already numbers after destructuring, yet they are indexed again with `[0]`. That gives `undefined`, so the width test compares NaN with 1e-6 and always fails. The local fraction is therefore always 0 and no table entry is ever interpolated: each entry is the colour of its segment's left stop, and the last stop's colour is lost. | stops `[[0,"#000000"],[1,"#ffffff"]]`: entry 255 is black instead of white. With the default gradient, entry 255 is yellow instead of red. | fraction `(t - t1) / (t2 - t1)` on segments wider than 1e-6, so the table runs from the first stop's colour to the last stop's colour | high; not executed | Gradient.BlackToWhite | Gradient.TwoStopEnds |
